/** The UART async adapter together with its one client. The adapter calls the
  client back from inside its own functions and the client calls the adapter
  again from there, so both live in one object. Interrupt handlers, timer
  callbacks and thread steps are methods; each leaves `Valid` behind. */
module UartBridge {
  import opened Bytes
  import opened BlockHeap
  import opened Chunking
  import opened RxProtocol
  import opened RxSide
  import opened TxSide
  import opened Overtaking
  import opened BridgeSteps
  import opened BridgeLaws

  /** The results the adapter's functions return. */
  datatype Status = Ok | Busy | Fault | NoMem

  class Bridge {
    const blocks: nat
    const size: nat
    const rxWait: int

    // the heap that k_malloc and k_free serve
    var mem: seq<Block>
    var free: set<nat>

    // struct uart_async_adapter_data
    var rx: RxHalf
    var tx: TxHalf

    // statics of uart_cb
    var abortedBuf: Pointer
    var abortedLen: nat
    var disableReq: bool

    // the queues, the delayed work item, and what each thread has in hand
    var fifoTx: seq<nat>
    var fifoRx: seq<nat>
    var workPending: bool
    var bleHand: Option<nat>
    var recvActive: bool
    var recvData: seq<byte>
    var recvPos: nat
    var recvBlock: Option<nat>
    var recvHand: Option<nat>

    // what has happened
    ghost var rxLog: RxLog
    ghost var txLog: TxLog

    // ------------------------------------------------------------ invariant

    /** Blocks on their way to BLE, oldest first. */
    function RxLine(): seq<nat>
      reads this
    {
      Opt(bleHand) + fifoRx
    }

    /** What those blocks hold. */
    ghost function RxTexts(): seq<seq<byte>>
      reads this
    {
      Texts(mem, RxLine())
    }

    /** The payloads handed to BLE, and those on their way to it. */
    ghost function BlePayloads(): seq<seq<byte>>
      reads this
    {
      rxLog.sent + RxTexts()
    }

    /** Blocks waiting to be sent, oldest first. */
    function TxRest(): seq<nat>
      reads this
    {
      fifoTx + Opt(recvHand)
    }

    /** The free blocks, and the one bt_receive_cb has taken but not yet filled. */
    function Loose(): set<nat>
      reads this
    {
      free + Single(recvBlock)
    }

    /** That one, if there is one, is not free, and the write goes on. */
    predicate Unfilled()
      reads this
    {
      recvBlock.Some? ==> recvBlock.value !in free && recvActive && recvPos < |recvData| && recvHand.None?
    }

    ghost predicate Ownership()
      reads this
    {
      Owners(Ref(rx.buf), Ref(rx.nextBuf), RxLine(), TxLine(tx, TxRest()), Loose(), blocks)
    }

    /** What holds at every point where the adapter calls the client; the client
      still has to add `unread` reported bytes to its count. */
    ghost predicate Core(unread: nat)
      reads this
    {
      && 2 <= size <= 0xffff
      && Sized(mem, blocks, size)
      && RxInv(rx, mem, size, unread, RxLine(), rxLog)
      && TxInv(tx, abortedBuf, abortedLen, mem, TxRest(), txLog)
      && Ownership() && Unfilled()
      && Writing(recvActive, recvData, recvPos, recvHand, txLog)
    }

    /** The invariant between interrupts, timer callbacks and thread steps. */
    ghost predicate Valid()
      reads this
    {
      && Core(0)
      && !disableReq
      && rx.enabled == !workPending
      && (!rx.enabled ==> rx.buf.Null? && rx.nextBuf.Null?)
      && WellCut(BlePayloads(), size)
    }

    /** What holds while a block just taken from the heap has no place yet. */
    ghost predicate InHand(b: nat)
      reads this
    {
      && 2 <= size <= 0xffff
      && Sized(mem, blocks, size)
      && RxInv(rx, mem, size, 0, RxLine(), rxLog)
      && TxInv(tx, abortedBuf, abortedLen, mem, TxRest(), txLog)
      && Writing(recvActive, recvData, recvPos, recvHand, txLog)
      && Unfilled() && b !in Loose()
      && Owners(Ref(rx.buf), Ref(rx.nextBuf), RxLine(), TxLine(tx, TxRest()), Loose() + {b}, blocks)
    }

    /** The state as a value. */
    ghost function Now(): State
      reads this
    {
      State(size, rxWait, mem, free, rx, fifoRx, bleHand, workPending, disableReq, rxLog,
            tx, abortedBuf, abortedLen, fifoTx, recvActive, recvData, recvPos, recvBlock, recvHand, txLog)
    }

    /** What has been queued for BLE stays queued as it is, and events stay reported. */
    twostate predicate RxGrows()
      reads this
    {
      old(rxLog.events) <= rxLog.events && old(fifoRx) <= fifoRx && old(RxTexts()) <= RxTexts()
    }

    // ----------------------------------------------------------------- heap

    method KMalloc() returns (p: Option<nat>)
      modifies `free
      ensures p.None? <==> old(free) == {}
      ensures p.None? ==> free == old(free)
      ensures p.Some? ==> p.value in old(free) && free == old(free) - {p.value}
      ensures p.Some? && old(Unfilled()) ==> p.value !in Loose() && Loose() + {p.value} == old(Loose())
    {
      if free == {} {
        p := None;
      } else {
        var b :| b in free;
        free := free - {b};
        p := Some(b);
      }
    }

    /** Freeing a free block is ruled out by the precondition. */
    method KFree(b: nat)
      requires b !in free
      modifies `free
      ensures free == old(free) + {b} && Loose() == old(Loose()) + {b}
    {
      free := free + {b};
    }

    // ------------------------------------- receive: what the client may call

    method RxEnable(buf: Pointer, len: nat, timeout: int) returns (ret: Status)
      modifies `rx, `rxLog
      ensures ret == if old(rx.nextBuf.At? || rx.buf.At?) then Busy else Ok
      ensures rx == RxHalf(Null, Null, old(rx.lastNotifyBuf), 0, buf, len, timeout, true)
      ensures rxLog == old(rxLog).(events := old(rxLog.events) + (if buf.At? then [Supplied(buf.block)] else []))
    {
      ret := if rx.nextBuf.At? || rx.buf.At? then Busy else Ok;
      rx := rx.(buf := Null, currBuf := Null, sizeLeft := 0, nextBuf := buf, nextBufLen := len,
                timeout := timeout, enabled := true);
      rxLog := rxLog.(events := rxLog.events + (if buf.At? then [Supplied(buf.block)] else []));
    }

    method RxBufRsp(buf: Pointer, len: nat) returns (ret: Status)
      requires rx.nextBuf.Null? ==> rx.nextBufLen == 0
      modifies `rx, `rxLog
      ensures ret == if old(rx.nextBuf.At?) then Busy else Ok
      ensures ret == Busy ==> rx == old(rx) && rxLog == old(rxLog)
      ensures ret == Ok ==> rx == old(rx).(nextBuf := buf, nextBufLen := len)
      ensures ret == Ok ==>
        rxLog == old(rxLog).(events := old(rxLog.events) + (if buf.At? then [Supplied(buf.block)] else []))
    {
      if rx.nextBuf.At? {
        ret := Busy;
      } else {
        assert rx.nextBufLen == 0;
        rx := rx.(nextBuf := buf, nextBufLen := len);
        rxLog := rxLog.(events := rxLog.events + (if buf.At? then [Supplied(buf.block)] else []));
        ret := Ok;
      }
    }

    // -------------------------------------- receive: uart_cb, case by case

    method UartCbRxBufReleased(buf: Pointer)
      requires buf.At? && buf.off == 0 && buf.block < |mem| && buf.block !in free
      modifies `fifoRx, `free
      ensures mem[buf.block].len > 0 ==> fifoRx == old(fifoRx) + [buf.block] && free == old(free)
      ensures mem[buf.block].len == 0 ==> fifoRx == old(fifoRx) && free == old(free) + {buf.block}
      ensures Loose() == old(Loose()) + (if mem[buf.block].len == 0 then {buf.block} else {})
    {
      if mem[buf.block].len > 0 {
        fifoRx := fifoRx + [buf.block];
      } else {
        KFree(buf.block);
      }
    }

    /** A block just taken from the heap may become the next buffer. */
    lemma SupplyKeeps(b: nat, timeout: int, enabled: bool)
      requires InHand(b) && rx.nextBuf.Null?
      ensures b < |mem|
      ensures var mem' := mem[b := mem[b].(len := 0)];
        && Sized(mem', blocks, size)
        && RxInv(rx.(nextBuf := At(b, 0), nextBufLen := size, timeout := timeout, enabled := enabled), mem', size, 0,
                 RxLine(), rxLog.(events := rxLog.events + [Supplied(b)]))
        && TxInv(tx, abortedBuf, abortedLen, mem', TxRest(), txLog)
        && Texts(mem', RxLine()) == RxTexts()
        && Owners(Ref(rx.buf), [b], RxLine(), TxLine(tx, TxRest()), Loose(), blocks)
    {
      hide RxInv, TxInv, Owners;
      Separate(Ref(rx.buf), [], RxLine(), TxLine(tx, TxRest()), Loose() + {b}, blocks, b);
      FreeToNext(Ref(rx.buf), RxLine(), TxLine(tx, TxRest()), Loose() + {b}, blocks, b);
      assert Loose() + {b} - {b} == Loose();
      RxSupply(rx, mem, size, RxLine(), rxLog, b, timeout, enabled);
      TextsFrame(mem, mem[b := mem[b].(len := 0)], b, RxLine());
      TxFrame(tx, abortedBuf, abortedLen, mem, mem[b := mem[b].(len := 0)], b, TxRest(), txLog);
    }

    method UartCbRxBufRequest()
      requires Core(0) && rx.nextBuf.Null?
      modifies `rx, `rxLog, `free, `mem
      ensures Core(0) && RxTexts() == old(RxTexts())
      ensures old(free) == {} ==> rx == old(rx) && free == {} && mem == old(mem) && rxLog == old(rxLog)
      ensures old(free) != {} ==>
        && rx.nextBuf.At? && rx.nextBuf.block in old(free) && free == old(free) - {rx.nextBuf.block}
        && rx == old(rx).(nextBuf := rx.nextBuf, nextBufLen := size)
        && rx.nextBuf.block < |old(mem)| && mem == old(mem)[rx.nextBuf.block := old(mem)[rx.nextBuf.block].(len := 0)]
        && rxLog == old(rxLog).(events := old(rxLog.events) + [Supplied(rx.nextBuf.block)])
    {
      hide RxStream, RxTrace, TxInv, Owners, TxLine, Sized, Writing;
      var p := KMalloc();
      if p.Some? {
        var b := p.value;
        SupplyKeeps(b, rx.timeout, rx.enabled);
        mem := mem[b := mem[b].(len := 0)];
        var err := RxBufRsp(At(b, 0), size);
      }
    }

    /** Blocks are numbered from 0, and only they can be free. */
    ghost predicate HeapShape()
      reads this
    {
      2 <= size && Sized(mem, blocks, size) && forall b :: b in free ==> b < blocks
    }

    /** Start reception with a block just taken from the heap. A next buffer that
      was still there is forgotten. */
    method StartRx(b: nat)
      requires Sized(mem, blocks, size) && b < blocks && rx.buf.Null? && rx.lastNotifyBuf.Null?
      requires rx.nextBuf.Null? ==> InHand(b)
      modifies `rx, `rxLog, `mem
      ensures old(rx.nextBuf).Null? ==> Core(0) && RxTexts() == old(RxTexts())
      ensures rx == RxHalf(Null, Null, Null, 0, At(b, 0), size, rxWait, true)
      ensures mem == old(mem)[b := old(mem)[b].(len := 0)]
      ensures rxLog == old(rxLog).(events := old(rxLog.events) + [Supplied(b)])
    {
      hide RxStream, RxTrace, Loaded, TxInv, Owners, TxLine, Writing;
      if rx.nextBuf.Null? {
        SupplyKeeps(b, rxWait, true);
      }
      mem := mem[b := mem[b].(len := 0)];
      var err := RxEnable(At(b, 0), size, rxWait);
    }

    method UartCbRxDisabled()
      requires HeapShape() && rx.buf.Null? && rx.lastNotifyBuf.Null? && !rx.enabled
      requires rx.nextBuf.Null? ==> Core(0)
      modifies `rx, `rxLog, `free, `mem, `disableReq, `workPending
      ensures !disableReq && (old(rx.nextBuf).Null? ==> Core(0) && RxTexts() == old(RxTexts()))
      ensures old(free) == {} ==> rx == old(rx) && free == {} && mem == old(mem) && rxLog == old(rxLog) && workPending
      ensures old(free) != {} ==>
        && rx.nextBuf.At? && rx.nextBuf.block in old(free) && free == old(free) - {rx.nextBuf.block}
        && rx == RxHalf(Null, Null, Null, 0, rx.nextBuf, size, rxWait, true)
        && rx.nextBuf.block < |old(mem)| && mem == old(mem)[rx.nextBuf.block := old(mem)[rx.nextBuf.block].(len := 0)]
        && rxLog == old(rxLog).(events := old(rxLog.events) + [Supplied(rx.nextBuf.block)])
        && workPending == old(workPending)
    {
      hide RxInv, TxInv, Owners, TxLine, Writing;
      disableReq := false;
      var p := KMalloc();
      if p.None? {
        workPending := true;
        return;
      }
      StartRx(p.value);
    }

    // --------------------------------- receive: what calls the client back

    /** Giving back the current buffer loses what was not reported, and nothing else. */
    lemma ReleaseKeeps()
      requires Core(0) && rx.buf.At?
      ensures rx.buf.off == 0 && rx.buf.block < |mem| && rx.buf.block !in Loose()
      ensures rx.lastNotifyBuf.At? && mem[rx.buf.block].len == rx.lastNotifyBuf.off
      ensures var b := rx.buf.block;
        var log' := rxLog.(events := rxLog.events + [Released(b)], hw := Discard(rxLog.hw, |Unnotified(mem, rx)|));
        && (mem[b].len > 0 ==>
              && RxInv(Advanced(rx), mem, size, 0, RxLine() + [b], log')
              && Owners(Ref(rx.nextBuf), [], RxLine() + [b], TxLine(tx, TxRest()), Loose(), blocks))
        && (mem[b].len == 0 ==>
              && RxInv(Advanced(rx), mem, size, 0, RxLine(), log')
              && Owners(Ref(rx.nextBuf), [], RxLine(), TxLine(tx, TxRest()), Loose() + {b}, blocks))
    {
      hide RxStream, RxTrace, TxInv, Owners, TxLine, Sized, Writing, Unnotified;
      var b := rx.buf.block;
      Separate([b], Ref(rx.nextBuf), RxLine(), TxLine(tx, TxRest()), Loose(), blocks, b);
      RxRelease(rx, mem, size, RxLine(), rxLog);
      if mem[b].len > 0 {
        CurrentToLine(b, Ref(rx.nextBuf), RxLine(), TxLine(tx, TxRest()), Loose(), blocks);
      } else {
        CurrentToFree(b, Ref(rx.nextBuf), RxLine(), TxLine(tx, TxRest()), Loose(), blocks);
      }
    }

    lemma AdvanceKeeps()
      requires Core(0) && rx.buf.Null?
      ensures Unnotified(mem, rx) == [] && rx.lastNotifyBuf.Null?
      ensures RxInv(Advanced(rx), mem, size, 0, RxLine(), rxLog)
      ensures Owners(Ref(rx.nextBuf), [], RxLine(), TxLine(tx, TxRest()), Loose(), blocks)
    {
      hide RxStream, RxTrace, TxInv, Owners, TxLine, Sized, Writing;
      RxAdvance(rx, mem, size, RxLine(), rxLog);
      SameHoldings([], Ref(rx.nextBuf), RxLine(), TxLine(tx, TxRest()), Loose(), blocks,
                   Ref(rx.nextBuf), [], RxLine(), TxLine(tx, TxRest()), Loose());
    }

    method SwitchRxBuffer(requestNew: bool)
      requires Core(0)
      // a buffer given back on the way to a new one has been reported to its last byte
      requires requestNew && rx.buf.At? ==> rx.lastNotifyBuf.At? && rx.lastNotifyBuf.off == size
      modifies `rx, `rxLog, `free, `mem, `fifoRx
      ensures Core(0)
      ensures RxTexts() == old(ReleasedTexts()) && old(rxLog.events) <= rxLog.events
      ensures rx == Advanced(old(rx)).(nextBuf := rx.nextBuf, nextBufLen := rx.nextBufLen)
      ensures fifoRx == old(fifoRx) + (if old(PartReported()) then [old(rx.buf.block)] else [])
      ensures !requestNew ==>
        && rx == Advanced(old(rx)) && mem == old(mem)
        && free == old(free) + (if old(rx.buf.At? && !PartReported()) then {old(rx.buf.block)} else {})
        && rxLog.events == old(rxLog.events) + (if old(rx.buf.At?) then [Released(old(rx.buf.block))] else [])
      ensures requestNew ==>
        rxLog.events == old(rxLog.events)
          + (if old(rx.buf.At?) then [Released(old(rx.buf.block))] else []) + SupplyTail()
      ensures requestNew && old(free) == {} ==> rx.nextBuf.Null? && free == {} && mem == old(mem)
      ensures requestNew && old(free) != {} ==>
        rx.nextBuf.At? && rx.nextBuf.block in old(free) && free == old(free) - {rx.nextBuf.block}
      ensures rxLog == old(rxLog).(events := rxLog.events, hw := Discard(old(rxLog.hw), |old(Unnotified(mem, rx))|))
    {
      hide RxInv, TxInv, Owners, TxLine, Sized, Writing, Unnotified, Texts, Text, Discard;
      AdvanceRx();
      if requestNew {
        UartCbRxBufRequest();
      }
    }

    /** The next buffer takes over, and the current one is released. */
    method AdvanceRx()
      requires Core(0)
      modifies `rx, `rxLog, `free, `fifoRx
      ensures Core(0) && rx == Advanced(old(rx)) && RxTexts() == old(ReleasedTexts())
      ensures fifoRx == old(fifoRx) + (if old(PartReported()) then [old(rx.buf.block)] else [])
      ensures free == old(free) + (if old(rx.buf.At? && !PartReported()) then {old(rx.buf.block)} else {})
      ensures rxLog == old(rxLog).(
        events := old(rxLog.events) + (if old(rx.buf.At?) then [Released(old(rx.buf.block))] else []),
        hw := Discard(old(rxLog.hw), |old(Unnotified(mem, rx))|))
    {
      hide RxInv, TxInv, Owners, TxLine, Sized, Writing, Unnotified, Texts, Text, Discard;
      var oldBuf := rx.buf;
      ghost var lost := |Unnotified(mem, rx)|;
      if oldBuf.At? {
        ReleaseKeeps();
      } else {
        NothingUnreported();
        AdvanceKeeps();
      }
      rx := Advanced(rx);
      if oldBuf.At? {
        assert Opt(bleHand) + (fifoRx + [oldBuf.block]) == RxLine() + [oldBuf.block];
        TextsSnoc(mem, RxLine(), oldBuf.block);
        rxLog := rxLog.(events := rxLog.events + [Released(oldBuf.block)], hw := Discard(rxLog.hw, lost));
        UartCbRxBufReleased(oldBuf);
      }
    }

    /** Some of the current buffer has been reported. */
    predicate PartReported()
      reads this
    {
      rx.buf.At? && rx.lastNotifyBuf.At? && rx.lastNotifyBuf.off > 0
    }

    /** What is on its way to BLE once the current buffer is given back. */
    ghost function ReleasedTexts(): seq<seq<byte>>
      reads this
    {
      if PartReported() then RxTexts() + [Text(mem, rx.buf.block)] else RxTexts()
    }

    /** Reception, given up, was restarted with a block of `pool`; with none, the
      work item will try again. `counted` is the memory before that. */
    twostate predicate Restarted(pool: set<nat>, counted: seq<Block>)
      reads this
    {
      && rx.buf.Null? && rx.currBuf.Null? && rx.lastNotifyBuf.Null?
      && (pool == {} ==>
            && rx.nextBuf.Null? && !rx.enabled && workPending && free == {} && mem == counted
            && rx.timeout == old(rx.timeout))
      && (pool != {} ==>
            && rx.nextBuf.At? && rx.nextBuf.block in pool && free == pool - {rx.nextBuf.block}
            && rx.enabled && workPending == old(workPending) && rx.timeout == rxWait
            && OnlyBlock(counted, mem, rx.nextBuf.block))
    }

    /** The current buffer went to the BLE queue and reception was restarted.
      `counted` is the memory once the client has counted the bytes reported to it. */
    twostate predicate Flushed(counted: seq<Block>)
      reads this
    {
      && old(rx.buf.At?)
      && fifoRx == old(fifoRx) + [old(rx.buf.block)]
      && Restarted(old(Spare(rx, free)), counted)
    }

    /** Reception is switched off at the interrupt controller. */
    method SwitchOffRx()
      requires Core(0)
      modifies `rx
      ensures Core(0) && rx == old(rx).(enabled := false)
      ensures rx.nextBuf.At? ==> rx.nextBuf.off == 0
      ensures Unnotified(mem, rx) == old(Unnotified(mem, rx))
    {
      hide RxStream, RxTrace, TxInv, Owners, TxLine, Sized, Writing, Loaded;
      RxSwitched(rx, mem, size, RxLine(), rxLog, false);
      rx := rx.(enabled := false);
    }

    method NotifyRxDisabled()
      requires Core(0) && rx.buf.Null? && !rx.enabled
      modifies `rx, `rxLog, `free, `mem, `disableReq, `workPending
      ensures !disableReq && (old(rx.nextBuf).Null? ==> Core(0) && RxTexts() == old(RxTexts()))
      ensures rxLog == old(rxLog).(events := old(rxLog.events)
        + [Disabled] + (if old(free) != {} && rx.nextBuf.At? then [Supplied(rx.nextBuf.block)] else []))
      ensures old(free) == {} ==> rx == old(rx) && free == {} && mem == old(mem) && workPending
      ensures old(free) != {} ==>
        && rx.nextBuf.At? && rx.nextBuf.block in old(free) && free == old(free) - {rx.nextBuf.block}
        && rx == RxHalf(Null, Null, Null, 0, rx.nextBuf, size, rxWait, true)
        && OnlyBlock(old(mem), mem, rx.nextBuf.block) && workPending == old(workPending)
    {
      hide RxStream, RxTrace, TxInv, Owners, TxLine, Sized, Writing, Loaded;
      FreeInHeap();
      if rx.nextBuf.Null? {
        RxDisabled(rx, mem, size, RxLine(), rxLog);
      }
      rxLog := rxLog.(events := rxLog.events + [Disabled]);
      UartCbRxDisabled();
    }

    lemma FreeInHeap()
      requires Core(0)
      ensures HeapShape()
    {
      hide RxInv, TxInv, Owners, Sized;
      forall b | b in free
        ensures b < blocks
      {
        Separate(Ref(rx.buf), Ref(rx.nextBuf), RxLine(), TxLine(tx, TxRest()), Loose(), blocks, b);
      }
    }

    /** The invariant survives exactly if there is a current buffer or no buffer at
      all: the loop looks at the current buffer alone, so a next buffer without
      one is still held when DISABLED is reported, and then overwritten. */
    method RxDisable()
      requires Core(0)
      modifies `rx, `rxLog, `free, `mem, `fifoRx, `disableReq, `workPending
      ensures fifoRx == old(fifoRx) + (if old(PartReported()) then [old(rx.buf.block)] else [])
      // unreported bytes go with the buffer they are in
      ensures rxLog == old(rxLog).(events := rxLog.events, hw := Discard(old(rxLog.hw), |old(Unnotified(mem, rx))|))
      // both buffers are released, in order, before the end of reception is reported
      ensures old(rx.buf.At? || rx.nextBuf.Null?) ==>
        && RxTexts() == old(ReleasedTexts()) && Restarted(old(StoppedSpare()), old(mem))
        && rxLog.events == old(StoppedEvents()) + SupplyTail()
      ensures !disableReq && (Core(0) <==> old(rx.buf.At? || rx.nextBuf.Null?))
    {
      hide Core, Owners, Discard, Unnotified, Texts, Text, NoReport;
      SwitchOffRx();
      ReleaseBoth();
      ghost var es, held := rxLog.events, rx.nextBuf.At?;
      HeldSlots();
      NotifyRxDisabled();
      if held {
        DisabledWhileHeld(es, rxLog.events[|es| + 1..]);
      }
    }

    /** The loop in rx_disable: at most two rounds. */
    method ReleaseBoth()
      requires Core(0) && !rx.enabled && (rx.nextBuf.At? ==> rx.nextBuf.off == 0)
      modifies `rx, `rxLog, `free, `mem, `fifoRx
      ensures Core(0) && rx.buf.Null? && !rx.enabled && rx.timeout == old(rx.timeout) && mem == old(mem)
      ensures rx.nextBuf == if old(rx.buf.At?) then Null else old(rx.nextBuf)
      ensures free == if old(rx.buf.At?) then old(StoppedSpare()) else old(free)
      ensures fifoRx == old(fifoRx) + (if old(PartReported()) then [old(rx.buf.block)] else [])
      ensures RxTexts() == old(ReleasedTexts())
      ensures rxLog == old(rxLog).(events := old(rxLog.events + ReleaseTail()),
                                   hw := Discard(old(rxLog.hw), |old(Unnotified(mem, rx))|))
    {
      hide Core, Owners, Discard, Unnotified, Texts, Text, NoReport;
      ghost var n, lost := 0, |Unnotified(mem, rx)|;
      if rx.buf.Null? {
        NothingUnreported();
      }
      while rx.buf.At?
        invariant Core(0) && mem == old(mem)
        invariant 0 <= n <= 2 && (n > 0 ==> old(rx.buf.At?)) && (n == 2 ==> old(rx.nextBuf.At?))
        invariant rxLog == old(rxLog).(events := old(rxLog.events)
          + (if n > 0 then [Released(old(rx.buf.block))] else [])
          + (if n > 1 then [Released(old(rx.nextBuf.block))] else []),
          hw := if n > 0 then Discard(old(rxLog.hw), lost) else old(rxLog.hw))
        invariant fifoRx == old(fifoRx) + (if n > 0 && old(PartReported()) then [old(rx.buf.block)] else [])
        invariant RxTexts() == if n > 0 then old(ReleasedTexts()) else old(RxTexts())
        invariant free == old(free) + (if n > 0 && old(!PartReported()) then {old(rx.buf.block)} else {})
          + (if n > 1 then {old(rx.nextBuf.block)} else {})
        invariant n == 0 ==> rx == old(rx)
        invariant n == 1 ==> rx == Advanced(old(rx))
        invariant n == 2 ==> rx == Advanced(Advanced(old(rx)))
        decreases (if rx.buf.At? then 1 else 0) + (if rx.nextBuf.At? then 1 else 0)
      {
        if n > 0 {
          NothingUnreported();
        }
        SwitchRxBuffer(false);
        n := n + 1;
      }
    }

    /** The blocks reception can restart with once both buffers are given back. */
    function StoppedSpare(): set<nat>
      reads this
    {
      Spare(rx, free) + (if rx.buf.At? && !PartReported() then {rx.buf.block} else {})
    }

    /** Both buffers are given back. */
    ghost function ReleaseTail(): seq<RxEvent>
      reads this
    {
      (if rx.buf.At? then [Released(rx.buf.block)] else [])
      + (if rx.buf.At? && rx.nextBuf.At? then [Released(rx.nextBuf.block)] else [])
    }

    /** And the end of reception is reported. */
    ghost function StopTail(): (tail: seq<RxEvent>)
      reads this
      ensures NoReport(tail)
    {
      ReleaseTail() + [Disabled]
    }

    ghost function StoppedEvents(): seq<RxEvent>
      reads this
    {
      rxLog.events + StopTail()
    }

    /** A next buffer, if there is one, was supplied last. */
    ghost function SupplyTail(): (tail: seq<RxEvent>)
      reads this
      ensures NoReport(tail)
    {
      if rx.nextBuf.At? then [Supplied(rx.nextBuf.block)] else []
    }

    lemma NothingUnreported()
      requires Core(0) && (rx.buf.Null? || rx.currBuf == rx.lastNotifyBuf)
      ensures Unnotified(mem, rx) == [] && Discard(rxLog.hw, 0) == rxLog.hw
    {
      hide RxStream, RxTrace, TxInv, Owners, Writing, Loaded;
    }

    lemma NoBufferNothingUnreported()
      requires Core(0)
      ensures rx.buf.Null? ==> Unnotified(mem, rx) == [] && !EndsLine(Unnotified(mem, rx)) && rx.sizeLeft == 0
      ensures Unnotified(mem, rx) == [] ==> rx.buf.Null? || rx.currBuf == rx.lastNotifyBuf
    {
      hide RxStream, RxTrace, TxInv, Owners, Writing, Loaded;
    }

    lemma HeldSlots()
      requires Core(0)
      ensures rx.buf.Null? ==> rx.currBuf.Null? && rx.lastNotifyBuf.Null?
      ensures rx.buf.Null? ==>
        Monitor(rxLog.events, size).Some? && (Monitor(rxLog.events, size).value == [] <==> rx.nextBuf.Null?)
    {
      hide RxStream, TxInv, Owners, Writing, Loaded;
    }

    /** DISABLED was reported with a buffer still held: no history that goes on from there is accepted. */
    lemma DisabledWhileHeld(es: seq<RxEvent>, tail: seq<RxEvent>)
      requires Monitor(es, size).Some? && Monitor(es, size).value != [] && rxLog.events == es + [Disabled] + tail
      ensures !Core(0)
    {
      hide RxStream, RxShape, TxInv, Owners, Writing, Loaded;
      MonitorSnoc(es, Disabled, size);
      assert rxLog.events[..|es| + 1] == es + [Disabled];
      if Core(0) {
        MonitorPrefix(rxLog.events, |es| + 1, size);
      }
    }

    /** The current buffer's block once the client has counted `n` bytes in it. */
    function Counted(n: nat): seq<Block>
      requires rx.buf.At? && rx.buf.block < |mem|
      reads this
    {
      mem[rx.buf.block := mem[rx.buf.block].(len := n)]
    }

    lemma CountKeeps(n: nat)
      requires Core(n) && rx.buf.At?
      ensures rx.lastNotifyBuf.At? && rx.buf.block < |mem| && mem[rx.buf.block].len + n == rx.lastNotifyBuf.off <= size
      ensures var mem' := Counted(rx.lastNotifyBuf.off);
        && Sized(mem', blocks, size)
        && RxInv(rx, mem', size, 0, RxLine(), rxLog)
        && TxInv(tx, abortedBuf, abortedLen, mem', TxRest(), txLog)
        && Texts(mem', RxLine()) == RxTexts()
        && (rx.currBuf == rx.lastNotifyBuf && 0 < rx.lastNotifyBuf.off ==>
              && Text(mem', rx.buf.block) == Filled(mem, rx) && |mem'[rx.buf.block].data| == size
              && (EndsLine(Filled(mem, rx)) <==> IsLineEnd(mem'[rx.buf.block].data[rx.lastNotifyBuf.off - 1])))
    {
      hide RxStream, RxTrace, TxInv, Owners, TxLine, Writing, Loaded;
      var b := rx.buf.block;
      Separate([b], Ref(rx.nextBuf), RxLine(), TxLine(tx, TxRest()), Loose(), blocks, b);
      RxCount(rx, mem, size, n, RxLine(), rxLog);
      TxFrame(tx, abortedBuf, abortedLen, mem, Counted(rx.lastNotifyBuf.off), b, TxRest(), txLog);
      TextsFrame(mem, Counted(rx.lastNotifyBuf.off), b, RxLine());
    }

    /** What is on its way to BLE once all that was received has been queued. */
    ghost function FlushedTexts(): seq<seq<byte>>
      reads this
    {
      RxTexts() + [Filled(mem, rx)]
    }

    method UartCbRxRdy(buf: Pointer, offset: nat, len: nat)
      requires Core(len) && rx.buf.At? && buf == rx.buf
      requires 0 < len && rx.currBuf == rx.lastNotifyBuf && rx.lastNotifyBuf.off == offset + len
      modifies `rx, `rxLog, `free, `mem, `fifoRx, `disableReq, `workPending
      ensures Core(0)
      ensures old(disableReq || !EndsLine(Filled(mem, rx))) ==>
        && rx == old(rx) && rxLog == old(rxLog) && free == old(free) && fifoRx == old(fifoRx)
        && workPending == old(workPending) && mem == old(Counted(offset + len)) && disableReq == old(disableReq)
      ensures old(!disableReq && EndsLine(Filled(mem, rx))) ==>
        && Flushed(old(Counted(offset + len))) && !disableReq
        && rxLog.events == old(StoppedEvents()) + SupplyTail()
      // a flush queues the whole filled part of the buffer
      ensures RxTexts() == if old(!disableReq && EndsLine(Filled(mem, rx))) then old(FlushedTexts()) else old(RxTexts())
      ensures old(rxLog.events) <= rxLog.events
      ensures rxLog == old(rxLog).(events := rxLog.events)
    {
      hide RxInv, TxInv, Owners, TxLine, Writing, Sized, Texts, Text, Filled, EndsLine, U16, Unnotified, Discard;
      var b := buf.block;
      CountKeeps(len);
      U16Fits(offset + len);
      mem := mem[b := mem[b].(len := U16(mem[b].len + len))];
      if disableReq {
        return;
      }
      if IsLineEnd(mem[b].data[mem[b].len - 1]) {
        FlushRx();
      }
    }

    /** The client gives up a buffer whose filled part, all of it reported, ends a line. */
    method FlushRx()
      requires Core(0) && PartReported() && rx.currBuf == rx.lastNotifyBuf
      modifies `rx, `rxLog, `free, `mem, `fifoRx, `disableReq, `workPending
      ensures Core(0) && !disableReq && Flushed(old(mem)) && RxTexts() == old(ReleasedTexts()) && RxGrows()
      ensures rxLog.events == old(StoppedEvents()) + SupplyTail()
      ensures rxLog == old(rxLog).(events := rxLog.events)
    {
      hide RxInv, TxInv, Owners, TxLine, Writing, Sized, Texts, Text, Unnotified, Discard;
      disableReq := true;
      NothingUnreported();
      RxDisable();
    }

    lemma ReportKeeps()
      requires Core(0) && rx.buf.At? && rx.lastNotifyBuf.off < rx.currBuf.off
      ensures var n := rx.currBuf.off - rx.lastNotifyBuf.off;
        RxInv(rx.(lastNotifyBuf := rx.currBuf), mem, size, n, RxLine(),
              rxLog.(events := rxLog.events + [Ready(rx.buf.block, rx.lastNotifyBuf.off, n)]))
    {
      hide RxStream, RxTrace, TxInv, Owners, TxLine, Writing, Loaded;
      RxReport(rx, mem, size, RxLine(), rxLog);
    }

    /** Report the bytes not yet reported; the report of a line's end queues the whole buffer. */
    method NotifyRxBuffer()
      requires Valid()
      modifies `rx, `rxLog, `free, `mem, `fifoRx, `disableReq, `workPending
      ensures Valid()
      ensures old(Unnotified(mem, rx)) == [] ==>
        && rx == old(rx) && rxLog == old(rxLog) && free == old(free) && mem == old(mem) && fifoRx == old(fifoRx)
        && workPending == old(workPending)
      ensures old(Unnotified(mem, rx)) != [] && !old(EndsLine(Unnotified(mem, rx))) ==>
        && old(rx.buf.At?) && rx == old(rx).(lastNotifyBuf := old(rx.currBuf))
        && rxLog == old(rxLog).(events := old(rxLog.events)
             + [Ready(old(rx.buf.block), old(rx.lastNotifyBuf.off), |old(Unnotified(mem, rx))|)])
        && free == old(free) && fifoRx == old(fifoRx) && workPending == old(workPending)
        && mem == old(Counted(rx.currBuf.off))
      ensures old(EndsLine(Unnotified(mem, rx))) ==>
        && Flushed(old(Counted(rx.currBuf.off)))
        && rxLog.events == old(rxLog.events)
             + [Ready(old(rx.buf.block), old(rx.lastNotifyBuf.off), |old(Unnotified(mem, rx))|)]
             + (old(StopTail()) + SupplyTail())
      ensures RxTexts() == if old(EndsLine(Unnotified(mem, rx))) then old(FlushedTexts()) else old(RxTexts())
      ensures RxGrows()
      ensures rxLog == old(rxLog).(events := rxLog.events)
    {
      hide RxInv, TxInv, Owners, TxLine, Writing, Sized, Texts, Text, WellCut, SupplyTail, StopTail, Unnotified, Filled,
           EndsLine;
      RxPointers();
      if EndsLine(Filled(mem, rx)) {
        WellCutSnoc(BlePayloads(), size, Filled(mem, rx));
        assert BlePayloads() + [Filled(mem, rx)] == rxLog.sent + (RxTexts() + [Filled(mem, rx)]);
      }
      if rx.buf.At? {
        assert rx.currBuf.block == rx.buf.block && rx.currBuf.off >= rx.buf.off;
        assert rx.currBuf.off >= rx.lastNotifyBuf.off;
        if rx.currBuf.off > rx.lastNotifyBuf.off {
          ReportRx();
        }
      }
    }

    /** The unreported bytes are reported. */
    method ReportRx()
      requires Core(0) && !disableReq && rx.buf.At? && rx.lastNotifyBuf.At? && rx.currBuf.At?
      requires rx.lastNotifyBuf.off < rx.currBuf.off
      modifies `rx, `rxLog, `free, `mem, `fifoRx, `disableReq, `workPending
      ensures Core(0) && !disableReq
      ensures var n := old(rx.currBuf.off - rx.lastNotifyBuf.off);
        var ready := Ready(old(rx.buf.block), old(rx.lastNotifyBuf.off), n);
        if old(EndsLine(Filled(mem, rx))) then
          && Flushed(old(Counted(rx.currBuf.off))) && RxTexts() == old(FlushedTexts())
          && rxLog.events == old(rxLog.events) + [ready] + (old(StopTail()) + SupplyTail())
        else
          && rx == old(rx).(lastNotifyBuf := old(rx.currBuf)) && rxLog.events == old(rxLog.events) + [ready]
          && free == old(free) && fifoRx == old(fifoRx) && workPending == old(workPending)
          && mem == old(Counted(rx.currBuf.off)) && RxTexts() == old(RxTexts())
      ensures rxLog == old(rxLog).(events := rxLog.events)
    {
      hide RxInv, TxInv, Owners, TxLine, Writing, Sized, Texts, Text, SupplyTail, Unnotified, Filled, EndsLine;
      RxPointers();
      var len, offset := rx.currBuf.off - rx.lastNotifyBuf.off, rx.lastNotifyBuf.off - rx.buf.off;
      ReportKeeps();
      rx := rx.(lastNotifyBuf := rx.currBuf);
      rxLog := rxLog.(events := rxLog.events + [Ready(rx.buf.block, offset, len)]);
      ghost var es, tail := rxLog.events, StopTail();
      assert tail == old(StopTail());
      UartCbRxRdy(rx.buf, offset, len);
      assert es + tail + SupplyTail() == es + (tail + SupplyTail());
    }

    /** Where the pointers stand, and what they mean for the unreported bytes. */
    lemma RxPointers()
      requires Core(0)
      ensures rx.buf.Null? ==> Unnotified(mem, rx) == []
      ensures rx.buf.At? ==>
        && rx.buf.off == 0 && rx.buf.block < |mem| && rx.currBuf.At? && rx.currBuf.block == rx.buf.block
        && rx.lastNotifyBuf.At? && rx.lastNotifyBuf.block == rx.buf.block && rx.lastNotifyBuf.off <= rx.currBuf.off
        && |Unnotified(mem, rx)| == rx.currBuf.off - rx.lastNotifyBuf.off
        && (Unnotified(mem, rx) != [] ==> (EndsLine(Unnotified(mem, rx)) <==> EndsLine(Filled(mem, rx))))
      ensures forall last: Pointer :: Filled(mem, rx.(lastNotifyBuf := last)) == Filled(mem, rx)
      ensures !EndsLine([])
    {
      hide RxStream, RxTrace, TxInv, Owners, TxLine, Writing, Loaded;
    }

    /** With no current buffer, as after a line's end was reported, everything
      received and not dropped has gone to BLE or is queued for it. */
    lemma EverythingQueued()
      requires Valid() && rx.buf.Null?
      ensures KeptBytes(rxLog.hw) == Flat(rxLog.sent) + Flat(RxTexts())
    {
    }

    /** The RX timer fires. */
    method RxTimeout()
      requires Valid()
      modifies `rx, `rxLog, `free, `mem, `fifoRx, `disableReq, `workPending
      ensures Valid()
      ensures old(EndsLine(Unnotified(mem, rx))) ==> Flushed(old(Counted(rx.currBuf.off)))
      ensures !old(EndsLine(Unnotified(mem, rx))) ==>
        && Unnotified(mem, rx) == [] && rx == old(rx).(lastNotifyBuf := old(rx.currBuf)) && fifoRx == old(fifoRx)
        && free == old(free) && workPending == old(workPending)
      ensures RxTexts() == if old(EndsLine(Unnotified(mem, rx))) then old(FlushedTexts()) else old(RxTexts())
      ensures RxGrows()
      ensures rxLog == old(rxLog).(events := rxLog.events)
    {
      hide RxInv, TxInv, Owners, TxLine, Writing, Sized, WellCut, Texts, Text, Unnotified, EndsLine;
      NoBufferNothingUnreported();
      HeldSlots();
      NotifyRxBuffer();
      if rx.buf.Null? || rx.currBuf == rx.lastNotifyBuf {
        NothingUnreported();
      }
    }

    // ------------------------------------------- receive: the interrupt

    /** Whether a received byte finds no buffer: the current one is full (or there
      is none) and the switch has nothing to switch to. Reporting a line's end
      first gives the buffer up, so then every spare block counts. */
    predicate Starved()
      reads this
    {
      rx.sizeLeft == 0 && (if EndsLine(Unnotified(mem, rx)) then Spare(rx, free) == {} else rx.nextBuf.Null?)
    }

    /** A next buffer is prepared, or no block is free to make one of. */
    predicate Stocked()
      reads this
    {
      rx.nextBuf.At? || free == {}
    }

    /** Behind `avail` there was room for exactly what there is room for now. */
    twostate predicate RoomLeftBehind(avail: seq<byte>)
      reads this
    {
      forall more: seq<byte> :: RoomNow(more) + |avail| == old(RoomNow(avail + more))
    }

    function RoomNow(avail: seq<byte>): nat
      reads this
    {
      Room(rx, mem, free, size, avail)
    }

    lemma StarvedHasNoRoom(avail: seq<byte>)
      requires 0 < size
      ensures Starved() <==> RoomNow(avail) == 0
    {
      hide Unnotified;
      assert avail[..0] == [] && Unnotified(mem, rx) + [] == Unnotified(mem, rx);
      if Spare(rx, free) != {} {
        Times(|Spare(rx, free)| - 1, size);
      }
    }

    /** What uart_fifo_read may return: any number of the bytes still to come, as
      long as there are any. */
    method UartFifoRead(avail: nat, max: nat) returns (ret: nat)
      requires 0 < max
      ensures ret <= avail && ret <= max && (ret == 0 <==> avail == 0)
    {
      if avail == 0 {
        ret := 0;
      } else {
        ret :| 0 < ret && ret <= avail && ret <= max;
      }
    }

    /** The current buffer is full or missing: report it, switch, ask for another. */
    method RenewRxBuffer()
      requires Valid() && rx.enabled && rx.sizeLeft == 0
      modifies `rx, `rxLog, `free, `mem, `fifoRx, `disableReq, `workPending
      ensures Valid()
      ensures old(Starved()) <==> rx.sizeLeft == 0
      ensures old(Starved()) ==> rx.buf.Null?
      ensures !old(Starved()) ==>
        && rx.enabled && rx.buf.At? && rx.sizeLeft == size && rx.buf.block in old(Spare(rx, free))
        && Spare(rx, free) == old(Spare(rx, free)) - {rx.buf.block} && (rx.nextBuf.Null? ==> Spare(rx, free) == {})
      ensures RxGrows() && (rx.nextBuf.Null? ==> free == {})
      ensures old(Starved() && Stocked()) ==> rx.nextBuf.Null?
      ensures old(rx.timeout) != 0 && rxWait != 0 ==> rx.timeout != 0
      ensures rx.buf.At? ==> rx.lastNotifyBuf.At? && rx.lastNotifyBuf.off == 0
      ensures FullReports(rxLog.events, |old(rxLog.events)|, size) && FullTexts(RxTexts(), |old(RxTexts())|, size)
      ensures old(rx.buf.Null? && rx.nextBuf.At?) ==> rx.buf == old(rx.nextBuf)
      ensures old(rx.buf.Null? && rx.nextBuf.Null?) ==> rx.enabled && fifoRx == old(fifoRx)
      ensures old(rx.buf.Null? || !EndsLine(Unnotified(mem, rx))) ==> (rx.nextBuf.At? <==> old(free) != {})
      ensures rxLog == old(rxLog).(events := rxLog.events)
    {
      hide RxInv, TxInv, Owners, TxLine, Writing, Sized, Discard, EndsLine, Unnotified, WellCut, Texts, Text,
           FullReports, NoReport;
      NoBufferNothingUnreported();
      NotifyFull();
      NoBufferNothingUnreported();
      NextNotFree();
      NothingUnreported();
      FullPayload();
      NoReportAfter(rxLog.events, |old(rxLog.events)|);
      SwitchRxBuffer(true);
    }

    /** A release and a supply are no reports. */
    lemma NoReportAfter(es: seq<RxEvent>, from: nat)
      requires FullReports(es, from, size)
      ensures forall r: seq<RxEvent>, t: seq<RxEvent> ::
        NoReport(r) && NoReport(t) ==> FullReports(es + r + t, from, size)
      ensures NoReport([]) && forall b: nat :: NoReport([Released(b)])
    {
      forall r: seq<RxEvent>, t: seq<RxEvent> | NoReport(r) && NoReport(t)
        ensures FullReports(es + r + t, from, size)
      {
        ReportThenNone(es, Disabled, r, from, size);
        ReportThenNone(es + r, Disabled, t, from, size);
      }
    }

    /** The report of a full buffer. */
    method NotifyFull()
      requires Valid() && rx.enabled && rx.sizeLeft == 0
      modifies `rx, `rxLog, `free, `mem, `fifoRx, `disableReq, `workPending
      ensures Valid() && RxGrows() && FullReports(rxLog.events, |old(rxLog.events)|, size)
      ensures FullTexts(RxTexts(), |old(RxTexts())|, size)
      ensures !old(EndsLine(Unnotified(mem, rx))) ==>
        && rx == old(rx).(lastNotifyBuf := old(rx.currBuf))
        && free == old(free) && fifoRx == old(fifoRx) && workPending == old(workPending)
      ensures old(EndsLine(Unnotified(mem, rx))) ==> old(rx.buf.At?) && Restarted(old(Spare(rx, free)), mem)
      ensures Unnotified(mem, rx) == []
      ensures rxLog == old(rxLog).(events := rxLog.events)
    {
      hide RxInv, TxInv, Owners, TxLine, Writing, Sized, EndsLine, Unnotified, WellCut, Texts, Text,
           FullReports, StopTail;
      ReportFull();
      HeldSlots();
      NoBufferNothingUnreported();
      NotifyRxBuffer();
      if rx.buf.Null? || rx.currBuf == rx.lastNotifyBuf {
        NothingUnreported();
      }
    }

    /** Reporting a full buffer is a full report. */
    lemma ReportFull()
      requires Valid() && rx.sizeLeft == 0
      ensures FullReports(rxLog.events, |rxLog.events|, size)
      ensures rx.buf.At? ==> |Filled(mem, rx)| == size
      ensures EndsLine(Unnotified(mem, rx)) ==> rx.buf.At?
      ensures Unnotified(mem, rx) != [] ==>
        var e := Ready(rx.buf.block, rx.lastNotifyBuf.off, |Unnotified(mem, rx)|);
        && FullReports(rxLog.events + [e], |rxLog.events|, size)
        && forall tail: seq<RxEvent> :: NoReport(tail) ==>
             FullReports(rxLog.events + [e] + tail, |rxLog.events|, size)
    {
      hide RxStream, RxTrace, TxInv, Owners, TxLine, Writing, Loaded, WellCut;
      if Unnotified(mem, rx) != [] {
        var e := Ready(rx.buf.block, rx.lastNotifyBuf.off, |Unnotified(mem, rx)|);
        forall tail: seq<RxEvent> | NoReport(tail)
          ensures FullReports(rxLog.events + [e] + tail, |rxLog.events|, size)
        {
          ReportThenNone(rxLog.events, e, tail, |rxLog.events|, size);
        }
      }
    }

    /** A full buffer makes a payload of the whole buffer. */
    lemma FullPayload()
      requires Valid()
      ensures PartReported() && rx.lastNotifyBuf.off == size ==>
        WellCut(rxLog.sent + (RxTexts() + [Text(mem, rx.buf.block)]), size) && |Text(mem, rx.buf.block)| == size
    {
      hide RxStream, RxTrace, TxInv, Owners, TxLine, Writing, Loaded, WellCut;
      if PartReported() && rx.lastNotifyBuf.off == size {
        var t := Text(mem, rx.buf.block);
        WellCutSnoc(BlePayloads(), size, t);
        assert BlePayloads() + [t] == rxLog.sent + (RxTexts() + [t]);
      }
    }

    lemma NextNotFree()
      requires Core(0)
      ensures rx.nextBuf.At? ==> rx.nextBuf.block !in free
      ensures rx.buf.At? && rx.sizeLeft == 0 && rx.currBuf == rx.lastNotifyBuf ==>
        rx.lastNotifyBuf.At? && rx.lastNotifyBuf.off == size
      ensures rx.nextBufLen == if rx.nextBuf.At? then size else 0
      ensures rx.nextBuf.At? ==> rx.nextBuf.off == 0
    {
      hide RxStream, RxTrace, TxInv, Owners, TxLine, Writing, Loaded;
      if rx.nextBuf.At? {
        Separate(Ref(rx.buf), Ref(rx.nextBuf), RxLine(), TxLine(tx, TxRest()), Loose(), blocks, rx.nextBuf.block);
      }
    }

    /** No buffer: whatever the FIFO holds is thrown away. */
    method DropRx(avail: seq<byte>)
      requires Valid()
      modifies `rxLog
      ensures Valid()
      ensures rxLog == old(rxLog).(hw := old(rxLog.hw) + Mark(avail, false))
    {
      hide RxStream, RxTrace, TxInv, Owners, TxLine, Writing, Loaded, Sized, RxShape;
      var cnt, ret := 0, 0;
      while true
        invariant cnt <= |avail|
        invariant rxLog == old(rxLog)
        decreases |avail| - cnt
      {
        ret := UartFifoRead(|avail| - cnt, 1);
        cnt := cnt + ret;
        if ret == 0 {
          break;
        }
      }
      assert avail[..cnt] == avail;
      RxDrop(rx, mem, size, RxLine(), rxLog, avail[..cnt]);
      rxLog := rxLog.(hw := rxLog.hw + Mark(avail[..cnt], false));
    }

    lemma ReadKeeps(s: seq<byte>)
      requires Core(0) && 0 < rx.sizeLeft && |s| <= rx.sizeLeft
      ensures rx.buf.At? && rx.buf.block < |mem| && rx.currBuf.At? && rx.currBuf.off + |s| <= |mem[rx.buf.block].data|
      ensures var b, c := rx.buf.block, rx.currBuf.off;
        var mem' := mem[b := mem[b].(data := Overwrite(mem[b].data, c, s))];
        && Sized(mem', blocks, size)
        && RxInv(rx.(currBuf := At(b, c + |s|), sizeLeft := rx.sizeLeft - |s|), mem', size, 0, RxLine(),
                 rxLog.(hw := rxLog.hw + Mark(s, true)))
        && TxInv(tx, abortedBuf, abortedLen, mem', TxRest(), txLog)
        && Texts(mem', RxLine()) == RxTexts()
        && Unnotified(mem', rx.(currBuf := At(b, c + |s|), sizeLeft := rx.sizeLeft - |s|)) == Unnotified(mem, rx) + s
    {
      hide RxStream, RxTrace, TxInv, Owners, TxLine, Writing, Loaded, Unnotified, Filled, Texts, Mark;
      var b, c := rx.buf.block, rx.currBuf.off;
      Separate([b], Ref(rx.nextBuf), RxLine(), TxLine(tx, TxRest()), Loose(), blocks, b);
      RxRead(rx, mem, size, RxLine(), rxLog, s);
      var mem' := mem[b := mem[b].(data := Overwrite(mem[b].data, c, s))];
      TextsFrame(mem, mem', b, RxLine());
      TxFrame(tx, abortedBuf, abortedLen, mem, mem', b, TxRest(), txLog);
    }

    /** There is room: read into the current buffer. */
    method ReadRx(avail: seq<byte>) returns (ret: nat)
      requires Valid() && rx.sizeLeft > 0
      modifies `rx, `rxLog, `mem
      ensures Valid()
      ensures ret <= |avail| && ret <= old(rx.sizeLeft) && (ret == 0 <==> avail == [])
      ensures rx == old(rx).(currBuf := rx.currBuf, sizeLeft := old(rx.sizeLeft) - ret)
      ensures Unnotified(mem, rx) == old(Unnotified(mem, rx)) + avail[..ret] && RxTexts() == old(RxTexts())
      ensures rxLog == old(rxLog).(hw := old(rxLog.hw) + Mark(avail[..ret], true))
    {
      hide RxInv, TxInv, Owners, TxLine, Writing, Sized, Unnotified, Overwrite, Mark, Texts, WellCut;
      ret := UartFifoRead(|avail|, rx.sizeLeft);
      var s := avail[..ret];
      ReadKeeps(s);
      var b, c := rx.buf.block, rx.currBuf.off;
      mem := mem[b := mem[b].(data := Overwrite(mem[b].data, c, s))];
      rx := rx.(currBuf := At(b, c + ret), sizeLeft := rx.sizeLeft - ret);
      rxLog := rxLog.(hw := rxLog.hw + Mark(s, true));
    }

    /** `n` bytes have been read into the current buffer, and nothing else has happened. */
    twostate predicate OnlyRead(n: nat)
      reads this
    {
      && n <= old(rx.sizeLeft) && rx == old(rx).(currBuf := rx.currBuf, sizeLeft := old(rx.sizeLeft) - n)
      && rxLog.events == old(rxLog.events) && free == old(free) && fifoRx == old(fifoRx)
      && workPending == old(workPending)
    }

    /** One round of the loop in on_rx_ready. Either the adapter was starved when
      the round began and everything there is gets dropped, or what the round
      takes is kept and uses up as much of the room. */
    method RxReadyRound(avail: seq<byte>, notifyBefore: bool) returns (ret: nat, rest: seq<byte>, notifyNow: bool)
      requires Valid() && rx.enabled
      modifies `rx, `rxLog, `free, `mem, `fifoRx, `disableReq, `workPending
      ensures Valid()
      ensures old(Starved()) ==>
        && ret == 0 && rest == [] && rx.buf.Null? && !notifyNow
        && (rx.nextBuf.Null? ==> free == {}) && (old(Stocked()) ==> rx.nextBuf.Null?)
      ensures !old(Starved()) ==>
        && ret <= |avail| && rest == avail[ret..] && (ret == 0 <==> avail == [])
        && rx.enabled && rx.buf.At? && (ret == 0 ==> rx.sizeLeft > 0)
        && (old(Stocked()) ==> Stocked())
        && ret + RoomNow(rest) == old(RoomNow(avail))
        && forall more: seq<byte> :: ret + RoomNow(rest + more) == old(RoomNow(avail + more))
      ensures RxGrows()
      ensures old(rx.timeout) != 0 && rxWait != 0 ==> rx.timeout != 0 && (notifyNow ==> notifyBefore)
      ensures FullReports(rxLog.events, |old(rxLog.events)|, size) && FullTexts(RxTexts(), |old(RxTexts())|, size)
      ensures if old(rx.sizeLeft) > 0 then OnlyRead(ret)
              else rx.buf.At? ==> rx.lastNotifyBuf.At? && rx.lastNotifyBuf.off == 0
      ensures rxLog == old(rxLog).(events := rxLog.events,
                                   hw := old(rxLog.hw) + Mark(avail[..|avail| - |rest|], !old(Starved())))
      ensures rx.timeout == 0 ==> notifyNow || Unnotified(mem, rx) == []
      ensures old(rx.buf.Null? && rx.nextBuf.Null?) ==>
        old(Starved()) && rx.enabled && (rx.nextBuf.At? <==> old(free) != {}) && fifoRx == old(fifoRx)
    {
      hide RxInv, TxInv, Owners, TxLine, Writing, Sized, WellCut, Texts, Mark, Room, Unnotified, EndsLine, Spare;
      notifyNow := notifyBefore;
      ghost var rx0, mem0, free0 := rx, mem, free;
      NoBufferNothingUnreported();
      if rx.sizeLeft == 0 {
        notifyNow := false;
        RenewRxBuffer();
        if rx.sizeLeft > 0 {
          forall more: seq<byte>
            ensures Room(rx, mem, free, size, more) == Room(rx0, mem0, free0, size, more)
          {
            RoomAfterSwitch(rx0, mem0, free0, rx, mem, free, size, more, rx.buf.block);
          }
        }
      }
      if rx.sizeLeft == 0 {
        DropRx(avail);
        NoBufferNothingUnreported();
        ret, rest := 0, [];
        assert avail[..|avail|] == avail;
      } else {
        ghost var rx1, mem1, free1 := rx, mem, free;
        ret := ReadRx(avail);
        rest := avail[ret..];
        RoomAfterRead(rx1, mem1, rx, mem, free, size, avail, ret);
        forall more: seq<byte>
          ensures ret + Room(rx, mem, free, size, rest + more) == Room(rx1, mem1, free1, size, avail + more)
        {
          assert (avail + more)[ret..] == rest + more && (avail + more)[..ret] == avail[..ret];
          RoomAfterRead(rx1, mem1, rx, mem, free, size, avail + more, ret);
        }
        if rx.timeout == 0 {
          notifyNow := true;
        }
      }
    }

    /** The loop in on_rx_ready: rounds until the FIFO hands over nothing. */
    method RxReadyLoop(avail: seq<byte>) returns (notifyNow: bool)
      requires Valid() && rx.enabled
      modifies `rx, `rxLog, `free, `mem, `fifoRx, `disableReq, `workPending
      ensures rxLog == old(rxLog).(events := rxLog.events, hw := Received(old(rxLog.hw), avail, old(RoomNow(avail))))
      ensures rx.timeout == 0 ==> notifyNow || Unnotified(mem, rx) == []
      ensures old(rx.timeout) != 0 && rxWait != 0 ==> rx.timeout != 0 && !notifyNow
      ensures |avail| >= old(RoomNow(avail)) ==>
        && rx.buf.Null? && !notifyNow && (rx.nextBuf.Null? ==> free == {})
        && (old(Stocked()) ==> rx.nextBuf.Null?)
      ensures |avail| < old(RoomNow(avail)) ==>
        && rx.enabled && rx.buf.At? && rx.sizeLeft > 0
        && (old(Stocked()) ==> Stocked()) && RoomLeftBehind(avail)
        && if |avail| < old(rx.sizeLeft) then OnlyRead(|avail|)
           else rx.lastNotifyBuf.At? && rx.lastNotifyBuf.off == 0
      ensures FullReports(rxLog.events, |old(rxLog.events)|, size) && FullTexts(RxTexts(), |old(RxTexts())|, size)
      ensures old(rx.buf.Null? && rx.nextBuf.Null?) ==>
        rx.enabled && rx.buf.Null? && (rx.nextBuf.At? <==> old(free) != {}) && fifoRx == old(fifoRx)
      ensures Valid() && RxGrows()
    {
      hide Core, Mark, Starved, Received, RoomNow, Texts, WellCut, Unnotified;
      SizePositive();
      StarvedHasNoRoom(avail);
      var rest := avail;
      notifyNow := false;
      while true
        invariant Valid() && rx.enabled && |rest| <= |avail|
        invariant Received(rxLog.hw, rest, RoomNow(rest)) == old(Received(rxLog.hw, avail, RoomNow(avail)))
        invariant RoomNow(rest) + (|avail| - |rest|) == old(RoomNow(avail))
        invariant forall more: seq<byte> :: RoomNow(rest + more) + (|avail| - |rest|) == old(RoomNow(avail + more))
        invariant RxGrows() && rxLog == old(rxLog).(events := rxLog.events, hw := rxLog.hw)
        invariant old(Stocked()) ==> Stocked()
        invariant FullReports(rxLog.events, |old(rxLog.events)|, size) && FullTexts(RxTexts(), |old(RxTexts())|, size)
        invariant OnlyRead(|avail| - |rest|)
          || (|avail| - |rest| >= old(rx.sizeLeft)
              && (rx.buf.At? ==> rx.lastNotifyBuf.At? && rx.lastNotifyBuf.off == 0))
        invariant old(rx.timeout) != 0 && rxWait != 0 ==> rx.timeout != 0 && !notifyNow
        invariant old(rx.buf.Null? && rx.nextBuf.Null?) ==>
          rest == avail && rx == old(rx) && rxLog == old(rxLog) && free == old(free) && fifoRx == old(fifoRx)
        decreases |rest|
      {
        ghost var before, hw, room := rest, rxLog.hw, RoomNow(rest);
        StarvedHasNoRoom(rest);
        ReceivedInVain(hw, rest);
        var ret;
        ret, rest, notifyNow := RxReadyRound(rest, notifyNow);
        if room > 0 {
          ReceivedOn(hw, before, room, ret);
        }
        assert before[..|before|] == before;
        if ret == 0 {
          break;
        }
      }
      ReceivedNone(rxLog.hw, RoomNow([]));
      RoomWithBuffer([]);
      assert forall more: seq<byte> :: [] + more == more;
    }

    /** on_rx_ready, for any FIFO content handed over in any pieces. It keeps
      exactly the bytes there was room for when it began, and drops the others. */
    method OnRxReady(avail: seq<byte>)
      requires Valid() && rx.enabled
      modifies `rx, `rxLog, `free, `mem, `fifoRx, `disableReq, `workPending
      ensures Valid() && RxGrows()
      ensures rxLog == old(rxLog).(events := rxLog.events, hw := Received(old(rxLog.hw), avail, old(RoomNow(avail))))
      // the current buffer is absent or has room, and nothing waits for the timer when there is none
      ensures rx.buf.Null? <==> rx.sizeLeft == 0
      ensures rx.timeout == 0 ==> Unnotified(mem, rx) == []
      // reception is left without a buffer only if no block is free
      ensures rx.buf.Null? && rx.nextBuf.Null? ==> free == {}
      ensures old(Stocked()) ==> Stocked()
      // the room is used up, or what is left of it is left
      ensures |avail| >= old(RoomNow(avail)) ==>
        rx.buf.Null? && (old(Stocked()) ==> rx.nextBuf.Null?)
      ensures |avail| < old(RoomNow(avail)) && old(rx.timeout) != 0 && rxWait != 0 ==>
        rx.enabled && rx.buf.At? && rx.timeout != 0 && RoomLeftBehind(avail)
      // bytes that do not fill the buffer are left to the timer, if there is one; nothing but full buffers is reported
      ensures |avail| < old(rx.sizeLeft) && old(rx.timeout) != 0 && rxWait != 0 ==> OnlyRead(|avail|)
      ensures |avail| >= old(rx.sizeLeft) && old(rx.timeout) != 0 && rxWait != 0 ==>
        rx.buf.At? ==> rx.lastNotifyBuf.At? && rx.lastNotifyBuf.off == 0
      ensures old(rx.timeout) != 0 && rxWait != 0 ==>
        FullReports(rxLog.events, |old(rxLog.events)|, size) && FullTexts(RxTexts(), |old(RxTexts())|, size)
      ensures LateReport(rxLog.events, |old(rxLog.events)|, size)
      // with no buffer at all the bytes are lost, and a free block is prepared for the next ones
      ensures old(rx.buf.Null? && rx.nextBuf.Null?) ==>
        && rxLog.hw == old(rxLog.hw) + Mark(avail, false)
        && rx.enabled && rx.buf.Null? && (rx.nextBuf.At? <==> old(free) != {}) && fifoRx == old(fifoRx)
    {
      hide Core, Mark, Received, RoomNow, Texts, WellCut, FullReports, LateReport, StopTail, SupplyTail;
      SizePositive();
      ReceivedInVain(rxLog.hw, avail);
      StarvedHasNoRoom(avail);
      NoBufferNothingUnreported();
      RoomWithBuffer(avail);
      var notifyNow := RxReadyLoop(avail);
      NoBufferNothingUnreported();
      ghost var es := rxLog.events;
      LastReport(es, |old(rxLog.events)|);
      if notifyNow {
        ghost var stop := StopTail();
        NotifyRxBuffer();
        NoBufferNothingUnreported();
        assert NoReport(stop + SupplyTail());
      }
    }

    /** One more report behind full ones. */
    lemma LastReport(es: seq<RxEvent>, from: nat)
      requires FullReports(es, from, size)
      ensures LateReport(es, from, size)
      ensures forall e: RxEvent :: LateReport(es + [e], from, size)
      ensures forall e: RxEvent, tail: seq<RxEvent> :: NoReport(tail) ==> LateReport(es + [e] + tail, from, size)
    {
      forall e: RxEvent, tail: seq<RxEvent> | NoReport(tail)
        ensures LateReport(es + [e] + tail, from, size)
      {
        ReportThenNone(es, e, tail, from, size);
      }
    }

    lemma RoomWithBuffer(avail: seq<byte>)
      ensures rx.sizeLeft <= RoomNow(avail)
    {
    }

    lemma SizePositive()
      requires Core(0)
      ensures 2 <= size && Unfilled()
    {
    }

    /** The delayed work item runs: reception restarts as soon as a block is free. */
    method UartWorkHandler()
      requires Valid() && workPending
      modifies `rx, `rxLog, `free, `mem, `workPending
      ensures Valid()
      ensures old(free) == {} ==> workPending && rx == old(rx) && free == {}
      ensures old(free) != {} ==>
        && rx == RxHalf(Null, Null, Null, 0, rx.nextBuf, size, rxWait, true) && !workPending
        && rx.nextBuf.At? && rx.nextBuf.block in old(free) && free == old(free) - {rx.nextBuf.block}
      ensures RxTexts() == old(RxTexts())
      ensures rxLog == old(rxLog).(events := rxLog.events) && old(rxLog.events) <= rxLog.events
    {
      hide RxStream, RxTrace, Loaded, TxInv, Owners, TxLine, Writing;
      FreeInHeap();
      workPending := false;
      var p := KMalloc();
      if p.None? {
        workPending := true;
        return;
      }
      StartRx(p.value);
    }

    // --------------------------------------------------- the BLE thread

    method BleThreadGet()
      requires Valid() && bleHand.None? && fifoRx != []
      modifies `bleHand, `fifoRx
      ensures Valid()
      ensures bleHand == Some(old(fifoRx)[0]) && fifoRx == old(fifoRx)[1..]
    {
      hide RxStream, RxTrace, RxShape, TxInv, Owners, TxLine, Sized, Writing, Loaded;
      assert RxLine() == [fifoRx[0]] + fifoRx[1..];
      bleHand := Some(fifoRx[0]);
      fifoRx := fifoRx[1..];
    }

    /** bt_nus_send takes the payload, whether or not a peer gets it, and the block is freed. */
    method BleThreadSend()
      requires Valid() && bleHand.Some?
      modifies `bleHand, `free, `rxLog
      ensures Valid()
      ensures bleHand.None? && free == old(free) + {old(bleHand.value)}
      ensures rxLog == old(rxLog).(sent := old(rxLog.sent) + [Text(mem, old(bleHand.value))])
    {
      hide RxInv, TxInv, Owners, TxLine, Sized, Writing;
      var b := bleHand.value;
      assert RxLine() == [b] + fifoRx;
      LineToFree(Ref(rx.buf), Ref(rx.nextBuf), b, fifoRx, TxLine(tx, TxRest()), Loose(), blocks);
      RxSent(rx, mem, size, b, fifoRx, rxLog);
      assert b in RxLine();
      Separate(Ref(rx.buf), Ref(rx.nextBuf), RxLine(), TxLine(tx, TxRest()), Loose(), blocks, b);
      assert RxTexts() == [Text(mem, b)] + Texts(mem, fifoRx);
      assert BlePayloads() == rxLog.sent + [Text(mem, b)] + Texts(mem, fifoRx);
      rxLog := rxLog.(sent := rxLog.sent + [Text(mem, b)]);
      KFree(b);
      bleHand := None;
      assert RxLine() == fifoRx;
    }

    // ------------------------------------------------------- transmission

    method Tx(buf: Pointer, len: nat) returns (ret: Status)
      modifies `tx
      ensures len == 0 ==> ret == Ok && tx == old(tx)
      ensures len > 0 && old(tx.buf.At?) ==> ret == Busy && tx == old(tx)
      ensures len > 0 && old(tx.buf.Null?) ==> ret == Ok && tx == TxHalf(buf, buf, len, true)
    {
      ret := Ok;
      if len == 0 {
      } else if tx.buf.At? {
        ret := Busy;
      } else {
        tx := TxHalf(buf, buf, len, true);
      }
    }

    /** A transfer is under way, and its pointers are in bounds. */
    predicate InFlight()
      reads this
    {
      && tx.buf.At? && tx.currBuf.At? && tx.currBuf.block == tx.buf.block && tx.buf.block < |mem|
      && tx.buf.off <= tx.currBuf.off && tx.currBuf.off + tx.sizeLeft <= |mem[tx.buf.block].data|
    }

    /** Hand the FIFO what it can take of the block in flight. */
    method FillFifo(room: int)
      requires InFlight()
      modifies `tx, `txLog
      ensures var n, b, c := old(Pushable(tx, room)), old(tx.buf.block), old(tx.currBuf.off);
        && tx == old(tx).(currBuf := At(b, c + n), sizeLeft := old(tx.sizeLeft) - n)
        && c + n <= |mem[b].data| && txLog == old(txLog).(wire := old(txLog.wire) + mem[b].data[c..c + n])
    {
      if tx.sizeLeft > 0 {
        var ret := if room <= tx.sizeLeft then room else tx.sizeLeft;
        if ret > 0 {
          txLog := txLog.(wire := txLog.wire + mem[tx.currBuf.block].data[tx.currBuf.off..tx.currBuf.off + ret]);
          tx := tx.(currBuf := At(tx.currBuf.block, tx.currBuf.off + ret), sizeLeft := tx.sizeLeft - ret);
        }
      }
    }

    lemma FlightShape(n: nat)
      requires Core(0) && tx.enabled && n <= tx.sizeLeft
      ensures InFlight() && tx.currBuf.off + tx.sizeLeft == mem[tx.buf.block].len <= |mem[tx.buf.block].data|
      ensures |Text(mem, tx.buf.block)| == mem[tx.buf.block].len
      ensures var b, c := tx.buf.block, tx.currBuf.off;
        mem[b].data[c..c + n] == Text(mem, b)[c..c + n]
    {
      hide RxInv, Owners, Sized, TxStream, TxPrompt, Loaded;
    }

    /** The hardware can take `room` more bytes; zero or less is an error of uart_fifo_fill. */
    method OnTxReady(room: int)
      requires Valid() && tx.enabled
      modifies `tx, `txLog
      ensures Valid() && InFlight()
      ensures var n := old(Pushable(tx, room));
        tx == old(tx).(currBuf := At(old(tx.buf).block, old(tx.currBuf).off + n), sizeLeft := old(tx.sizeLeft) - n)
      ensures tx.currBuf.off <= |Text(mem, tx.buf.block)|
      ensures txLog == old(txLog).(
        wire := old(txLog.wire) + Text(mem, tx.buf.block)[old(tx.currBuf).off..tx.currBuf.off])
      ensures Pipeline(tx, mem, TxRest(), txLog) == old(Pipeline(tx, mem, TxRest(), txLog))
    {
      hide RxInv, Owners, Sized, TxStream, TxPrompt, Loaded, Text;
      FlightShape(Pushable(tx, room));
      TxPush(tx, abortedBuf, abortedLen, mem, TxRest(), txLog, Pushable(tx, room));
      FillFifo(room);
    }

    method UartCbTxDone(buf: Pointer, len: nat)
      requires tx.buf.Null? && (abortedBuf.Null? ==> abortedLen == 0)
      // CONTAINER_OF is applied to the start of a payload, never to an interior pointer
      requires buf.At? && len > 0 ==> (if abortedBuf.At? then abortedBuf else buf).off == 0
      requires buf.At? && len > 0 ==> (if abortedBuf.At? then abortedBuf else buf).block !in free
      requires fifoTx != [] ==> fifoTx[0] < |mem| && 0 < mem[fifoTx[0]].len
      modifies `tx, `abortedBuf, `abortedLen, `free, `fifoTx
      ensures buf.Null? || len == 0 ==>
        && tx == old(tx) && abortedBuf == old(abortedBuf) && abortedLen == old(abortedLen)
        && free == old(free) && fifoTx == old(fifoTx)
      ensures buf.At? && len > 0 ==>
        && abortedBuf.Null? && abortedLen == 0
        && free == old(free) + {(if old(abortedBuf).At? then old(abortedBuf) else buf).block}
        && Loose() == old(Loose()) + {(if old(abortedBuf).At? then old(abortedBuf) else buf).block}
        && (old(fifoTx) == [] ==> tx == old(tx) && fifoTx == [])
        && (old(fifoTx) != [] ==>
              && fifoTx == old(fifoTx)[1..]
              && tx == TxHalf(At(old(fifoTx)[0], 0), At(old(fifoTx)[0], 0), mem[old(fifoTx)[0]].len, true))
    {
      if len == 0 || buf.Null? {
        return;
      }
      var b;
      if abortedBuf.At? {
        b := abortedBuf.block;
        abortedBuf := Null;
        abortedLen := 0;
      } else {
        b := buf.block;
      }
      KFree(b);
      if fifoTx == [] {
        return;
      }
      b := fifoTx[0];
      fifoTx := fifoTx[1..];
      var err := Tx(At(b, 0), mem[b].len);
      assert err == Ok;
    }

    ghost function FinishedLog(): TxLog
      requires tx.buf.At?
      reads this
    {
      txLog.(done := txLog.done + [Text(mem, tx.buf.block)], stranded := Stranded(txLog, fifoTx, Opt(recvHand)))
    }

    lemma CompletedBlock()
      requires Core(0) && tx.enabled && tx.sizeLeft == 0
      ensures InFlight() && tx.buf.off < tx.currBuf.off && tx.buf.block !in Loose()
      ensures if abortedBuf.At? then abortedBuf == At(tx.buf.block, 0) else abortedLen == 0 == tx.buf.off
      ensures Loaded(mem, fifoTx)
      ensures Owners(Ref(rx.buf), Ref(rx.nextBuf), RxLine(),
                     TxLine(NextTx(mem, fifoTx), NextFifo(fifoTx) + Opt(recvHand)), Loose() + {tx.buf.block}, blocks)
      ensures Writing(recvActive, recvData, recvPos, recvHand, FinishedLog())
    {
      hide RxInv, Owners, TxStream;
      assert TxLine(tx, TxRest())[0] == tx.buf.block;
      Separate(Ref(rx.buf), Ref(rx.nextBuf), RxLine(), TxLine(tx, TxRest()), Loose(), blocks, tx.buf.block);
      SentToFree(Ref(rx.buf), Ref(rx.nextBuf), RxLine(), tx.buf.block, TxRest(), Loose(), blocks);
      RestLoaded(mem, tx.buf.block, TxRest());
      NextLine(mem, fifoTx, Opt(recvHand));
    }

    lemma FinishKeeps()
      requires Core(0) && tx.enabled && tx.sizeLeft == 0
      ensures tx.buf.At? && Loaded(mem, fifoTx)
      ensures TxInv(NextTx(mem, fifoTx), Null, 0, mem, NextFifo(fifoTx) + Opt(recvHand), FinishedLog())
      ensures Pipeline(NextTx(mem, fifoTx), mem, NextFifo(fifoTx) + Opt(recvHand), FinishedLog())
           == Pipeline(tx, mem, TxRest(), txLog)
    {
      hide RxInv, Owners, TxStream, Texts, Text;
      TxFinish(tx, abortedBuf, abortedLen, mem, TxRest(), txLog);
      NextLine(mem, fifoTx, Opt(recvHand));
      TxNext(mem, fifoTx, Opt(recvHand), txLog.(done := txLog.done + [Text(mem, tx.buf.block)]));
    }

    /** All of the block in flight has been pushed and the transmitter has run empty. */
    method FinishTransfer()
      requires InFlight() && tx.sizeLeft == 0 && tx.buf.off < tx.currBuf.off
      requires if abortedBuf.At? then abortedBuf.off == 0 else abortedLen == 0 == tx.buf.off
      requires (if abortedBuf.At? then abortedBuf else tx.buf).block !in free
      requires Loaded(mem, fifoTx)
      modifies `tx, `txLog, `abortedBuf, `abortedLen, `free, `fifoTx
      ensures abortedBuf.Null? && abortedLen == 0
      ensures free == old(free) + {(if old(abortedBuf).At? then old(abortedBuf) else old(tx.buf)).block}
      ensures Loose() == old(Loose()) + {(if old(abortedBuf).At? then old(abortedBuf) else old(tx.buf)).block}
      ensures tx == NextTx(mem, old(fifoTx)) && fifoTx == NextFifo(old(fifoTx))
      ensures txLog == old(FinishedLog())
    {
      hide Text;
      txLog := FinishedLog();
      tx := tx.(enabled := false);
      var buf, len := tx.buf, 0;
      if tx.buf.At? {
        len := tx.currBuf.off - tx.buf.off;
        tx := TxHalf(Null, Null, 0, tx.enabled);
      }
      if buf.At? {
        UartCbTxDone(buf, len);
      }
    }

    /** The transmitter has run empty: if that ends a block, its payload counts as
      sent, the block (not an interior pointer) is freed, and the queue's head is
      started. No payload leaves the pipeline or changes place in it. */
    method OnTxComplete()
      requires Valid() && tx.enabled
      modifies `tx, `txLog, `abortedBuf, `abortedLen, `free, `fifoTx
      ensures Valid()
      ensures Pipeline(tx, mem, TxRest(), txLog) == old(Pipeline(tx, mem, TxRest(), txLog))
      ensures old(tx.sizeLeft) > 0 ==>
        && tx == old(tx) && txLog == old(txLog) && free == old(free) && fifoTx == old(fifoTx)
        && abortedBuf == old(abortedBuf) && abortedLen == old(abortedLen)
      ensures old(tx.sizeLeft) == 0 ==>
        && old(tx.buf).At? && free == old(free) + {old(tx.buf).block} && abortedBuf.Null? && abortedLen == 0
        && txLog == old(FinishedLog())
        && Loaded(mem, old(fifoTx)) && tx == NextTx(mem, old(fifoTx)) && fifoTx == NextFifo(old(fifoTx))
    {
      hide RxInv, Owners, Sized, TxInv, TxLine, Text, Pipeline, Writing, Loaded, FinishedLog, NextTx, NextFifo;
      if tx.sizeLeft == 0 {
        CompletedBlock();
        FinishKeeps();
        FinishTransfer();
      }
    }

    method UartCbTxAborted(buf: Pointer, len: nat)
      requires tx.buf.Null? && buf.At? && buf.block < |mem|
      requires if abortedBuf.At? then abortedBuf == At(buf.block, 0) else buf.off == 0
      requires abortedLen + len <= mem[buf.block].len
      modifies `tx, `abortedBuf, `abortedLen
      ensures abortedBuf == At(buf.block, 0) && abortedLen == old(abortedLen) + len
      ensures var left := mem[buf.block].len - abortedLen;
        tx == if left == 0 then old(tx) else TxHalf(At(buf.block, abortedLen), At(buf.block, abortedLen), left, true)
    {
      if abortedBuf.Null? {
        abortedBuf := buf;
      }
      abortedLen := abortedLen + len;
      var b := abortedBuf.block;
      var err := Tx(At(b, abortedLen), mem[b].len - abortedLen);
    }

    /** A transfer is aborted. The rest of the block is started again from inside
      the callback exactly when there is a rest: an abort that comes after the
      last byte was pushed leaves the transmitter idle with a block that only
      aborted_buf still knows, and no TX_DONE will follow. */
    method TxAbort() returns (ret: Status)
      requires Valid()
      modifies `tx, `abortedBuf, `abortedLen
      ensures ret == if old(tx.buf.At?) then Ok else Fault
      ensures ret == Fault ==>
        Valid() && tx == old(tx) && abortedBuf == old(abortedBuf) && abortedLen == old(abortedLen)
      ensures ret == Ok ==> (Valid() <==> old(tx.sizeLeft) > 0) && (tx.buf.At? <==> old(tx.sizeLeft) > 0)
      ensures ret == Ok ==> abortedBuf == At(old(tx.buf).block, 0) && abortedLen == old(tx.currBuf).off
      ensures ret == Ok && old(tx.sizeLeft) == 0 ==> tx == TxHalf(Null, Null, 0, false)
      ensures ret == Ok && old(tx.sizeLeft) > 0 ==>
        && tx == TxHalf(old(tx.currBuf), old(tx.currBuf), old(tx.sizeLeft), true)
        && Pipeline(tx, mem, TxRest(), txLog) == old(Pipeline(tx, mem, TxRest(), txLog))
    {
      hide RxInv, Owners, Sized, TxStream, Writing, Loaded, TxPrompt;
      if tx.buf.At? && tx.sizeLeft > 0 {
        TxResume(tx, abortedBuf, abortedLen, mem, TxRest(), txLog);
      }
      tx := tx.(enabled := false);
      if tx.buf.Null? {
        ret := Fault;
      } else {
        var buf, len := tx.buf, tx.currBuf.off - tx.buf.off;
        tx := TxHalf(Null, Null, 0, false);
        UartCbTxAborted(buf, len);
        ret := Ok;
      }
    }

    // ----------------------------------------------- writes arriving by BLE

    method BtReceiveStart(data: seq<byte>)
      requires Valid() && ReceiverIdle(Now()) && |data| <= 0xffff
      modifies `recvActive, `recvData, `recvPos, `txLog
      ensures Valid() && 2 <= size
      ensures recvActive && recvData == data && recvPos == 0
      ensures txLog == old(txLog).(requests := old(txLog.requests) + [Request(data, 0)])
    {
      hide RxInv, Owners, Sized, TxInv;
      TxRequest(tx, abortedBuf, abortedLen, mem, TxRest(), txLog, data);
      BeginWrite(data);
    }

    /** bt_receive_cb is called. */
    method BeginWrite(data: seq<byte>)
      modifies `recvActive, `recvData, `recvPos, `txLog
      ensures recvActive && recvData == data && recvPos == 0
      ensures txLog == old(txLog).(requests := old(txLog.requests) + [Request(data, 0)])
    {
      txLog := txLog.(requests := txLog.requests + [Request(data, 0)]);
      recvActive, recvData, recvPos := true, data, 0;
    }

    /** The block made at the current position, in `room` bytes of payload. */
    function Made(room: seq<byte>): Block
      requires 2 <= size <= |room| && recvPos < |recvData|
      reads this
    {
      var chunk := Chunk(recvData, recvPos, size);
      Block(Overwrite(room, 0, chunk), |chunk|)
    }

    /** The memory with that block in place. */
    function MadeMem(b: nat): seq<Block>
      requires 2 <= size && b < |mem| && size <= |mem[b].data| && recvPos < |recvData|
      reads this
    {
      mem[b := Made(mem[b].data)]
    }

    lemma MadeKeeps(b: nat)
      requires Filling(b)
      ensures b < |mem| && |mem[b].data| == size
      ensures var mem' := MadeMem(b);
        && Sized(mem', blocks, size)
        && RxInv(rx, mem', size, 0, RxLine(), rxLog) && Texts(mem', RxLine()) == RxTexts()
        && TxInv(tx, abortedBuf, abortedLen, mem', TxRest(), txLog)
        && Text(mem', b) == Chunk(recvData, recvPos, size)
        && OnlyBlock(mem, mem', b) && mem'[b].len == |Chunk(recvData, recvPos, size)| <= |mem'[b].data|
    {
      hide RxInv, TxInv, Owners;
      Separate(Ref(rx.buf), Ref(rx.nextBuf), RxLine(), TxLine(tx, TxRest()), Loose(), blocks, b);
      var mem' := MadeMem(b);
      RxFrame(rx, mem, mem', b, size, RxLine(), rxLog);
      TextsFrame(mem, mem', b, RxLine());
      TxFrame(tx, abortedBuf, abortedLen, mem, mem', b, TxRest(), txLog);
    }

    /** Copy the next piece of the write into block `b`, and an LF behind a final CR. */
    method FillBlock(b: nat)
      requires 2 <= size <= 0xffff && b < |mem| && |mem[b].data| == size
      requires recvPos < |recvData| <= 0xffff
      modifies `mem, `recvPos
      ensures mem == old(MadeMem(b))
      ensures recvPos == old(recvPos) + Take(|recvData|, old(recvPos), size)
    {
      hide Chunk, Overwrite, U16;
      var txDataSize := size - 1;
      var len := if |recvData| - recvPos > txDataSize then txDataSize else |recvData| - recvPos;
      var piece := recvData[recvPos..recvPos + len];
      ChunkOf(recvData, recvPos, size);
      U16Fits(len);
      U16Fits(len + 1);
      U16Fits(recvPos + len);
      mem := mem[b := Block(Overwrite(mem[b].data, 0, piece), U16(len))];
      recvPos := U16(recvPos + len);
      if recvPos == |recvData| && recvData[|recvData| - 1] == CR {
        mem := mem[b := Block(Overwrite(mem[b].data, mem[b].len, [LF]), U16(mem[b].len + 1))];
        OverwriteTwice(old(mem)[b].data, piece, [LF]);
      }
    }

    /** The log once the block at the current position is made. */
    ghost function MadeLog(): TxLog
      requires 2 <= size && txLog.requests != [] && recvPos < |recvData|
      reads this
    {
      Submit(txLog, Request(recvData, recvPos), size)
    }

    /** Block `b` has been taken for the next piece of the write. */
    ghost predicate Filling(b: nat)
      reads this
    {
      Core(0) && recvBlock == Some(b)
    }

    /** `mem'` is the memory with that piece in the block. */
    ghost predicate Placed(b: nat, mem': seq<Block>)
      reads this
    {
      && Filling(b) && TxInv(tx, abortedBuf, abortedLen, mem', TxRest(), txLog)
      && b < |mem'| && mem'[b].len <= |mem'[b].data| && Text(mem', b) == Chunk(recvData, recvPos, size)
    }

    /** The new block is started at once. */
    lemma DirectKeeps(b: nat, mem': seq<Block>)
      requires Placed(b, mem') && tx.buf.Null?
      ensures 0 < mem'[b].len
      ensures var tx' := TxHalf(At(b, 0), At(b, 0), mem'[b].len, true);
        && TxInv(tx', abortedBuf, abortedLen, mem', TxRest(), MadeLog())
        && Owners(Ref(rx.buf), Ref(rx.nextBuf), RxLine(), TxLine(tx', TxRest()), free, blocks)
      ensures Writing(true, recvData, recvPos + Take(|recvData|, recvPos, size), None, MadeLog())
    {
      hide TxStream, TxPrompt, Owners, Loaded, Chunk, Text, RxInv, Sized;
      assert TxRest() == fifoTx;
      TxSubmitDirect(mem', b, TxRest(), txLog, Request(recvData, recvPos), size);
      assert [] + TxRest() == TxLine(tx, TxRest());
      FreeToSend(Ref(rx.buf), Ref(rx.nextBuf), RxLine(), [], TxRest(), free + {b}, blocks, b);
      assert Loose() == free + {b} && free + {b} - {b} == free;
      assert [] + [b] + TxRest() == [b] + TxRest();
    }

    /** The new block waits behind the others. */
    lemma BehindKeeps(b: nat, mem': seq<Block>)
      requires Placed(b, mem') && tx.buf.At?
      ensures 0 < mem'[b].len
      ensures TxInv(tx, abortedBuf, abortedLen, mem', fifoTx + Opt(Some(b)), MadeLog())
      ensures Owners(Ref(rx.buf), Ref(rx.nextBuf), RxLine(), TxLine(tx, fifoTx + Opt(Some(b))), free, blocks)
      ensures Writing(true, recvData, recvPos + Take(|recvData|, recvPos, size), Some(b), MadeLog())
    {
      hide TxStream, Owners, Loaded, Chunk, Text, RxInv, Sized;
      assert TxRest() == fifoTx;
      TxSubmitBehind(tx, abortedBuf, abortedLen, mem', b, TxRest(), txLog, Request(recvData, recvPos), size);
      assert TxLine(tx, TxRest()) + [] == TxLine(tx, TxRest());
      FreeToSend(Ref(rx.buf), Ref(rx.nextBuf), RxLine(), TxLine(tx, TxRest()), [], free + {b}, blocks, b);
      assert Loose() == free + {b} && free + {b} - {b} == free;
      assert TxLine(tx, TxRest()) + [b] + [] == TxLine(tx, fifoTx + [b]);
    }

    /** A round of the loop in bt_receive_cb takes a block, or ends the callback. */
    method BtReceiveAlloc()
      requires Valid() && recvActive && recvPos < |recvData| && recvBlock.None? && recvHand.None?
      modifies `free, `recvActive, `recvBlock
      ensures Valid()
      ensures old(free) == {} ==> !recvActive && recvBlock.None? && free == {}
      ensures old(free) != {} ==>
        recvActive && recvBlock.Some? && recvBlock.value in old(free) && free == old(free) - {recvBlock.value}
    {
      hide RxInv, TxInv, Owners, Sized, TxLine;
      recvBlock := KMalloc();
      if recvBlock.None? {
        recvActive := false;
      }
      assert Loose() == old(Loose());
    }

    /** The block taken is filled and handed to uart_tx. When uart_tx is busy the
      block stays in hand, to be queued next. The new payload goes to the end of
      the pipeline unless it is started at once and passes a waiting one that
      differs from it. */
    method BtReceiveSend()
      requires Valid() && recvBlock.Some?
      modifies `mem, `tx, `recvPos, `recvBlock, `recvHand, `txLog
      ensures Valid() && recvBlock.None? && 2 <= size
      ensures old(recvPos) < |recvData| && recvPos == old(recvPos) + Take(|recvData|, old(recvPos), size)
      ensures recvHand == if old(tx.buf).At? then old(recvBlock) else None
      ensures var b, payload := old(recvBlock).value, Chunk(recvData, old(recvPos), size);
        && OnlyBlock(old(mem), mem, b) && Text(mem, b) == payload && 0 < |payload|
        && tx == (if old(tx.buf).At? then old(tx) else TxHalf(At(b, 0), At(b, 0), |payload|, true))
        && PayloadAdded(payload)
      ensures old(LastRequest(txLog, Request(recvData, recvPos))) && txLog == old(MadeLog())
    {
      hide RxInv, TxInv, Owners, Sized, TxLine, Chunk, Submit, PayloadAdded, Text;
      SendBlock(recvBlock.value);
      MadeOrder();
    }

    /** One round of the loop in bt_receive_cb up to and including uart_tx. */
    method BtReceiveRound()
      requires Valid() && recvActive && recvPos < |recvData| && recvBlock.None? && recvHand.None?
      modifies `free, `mem, `tx, `recvActive, `recvPos, `recvBlock, `recvHand, `txLog
      ensures Valid() && recvBlock.None?
      ensures old(free) == {} ==>
        && !recvActive && recvPos == old(recvPos) && recvHand.None? && txLog == old(txLog)
        && free == {} && tx == old(tx)
      ensures old(free) != {} ==>
        && recvActive && recvPos == old(recvPos) + Take(|recvData|, old(recvPos), size)
        && free < old(free) && |free| == |old(free)| - 1
        && (recvHand.Some? <==> old(tx.buf).At?)
        && (old(tx.buf).At? ==> tx == old(tx))
        && (old(tx.buf).Null? ==> tx.buf.At? && tx.currBuf == tx.buf && tx.sizeLeft > 0)
        && old(LastRequest(txLog, Request(recvData, recvPos))) && txLog == old(MadeLog())
      ensures old(free) != {} ==> PayloadAdded(Chunk(recvData, old(recvPos), size))
    {
      hide Core, Chunk, Submit, Text, Pipeline;
      BtReceiveAlloc();
      if recvBlock.Some? {
        BtReceiveSend();
      }
    }

    /** The new payload stands behind all others exactly if the transmitter was
      busy, or nothing was waiting, or what waited is the same text; otherwise it
      has passed the one payload that was waiting. */
    twostate predicate PayloadAdded(payload: seq<byte>)
      reads this
    {
      && txLog.submitted == old(txLog.submitted) + [payload]
      && txLog.done == old(txLog.done) && txLog.stranded == old(txLog.stranded)
      && (Pipeline(tx, mem, TxRest(), txLog) == old(Pipeline(tx, mem, TxRest(), txLog)) + [payload] <==>
          old(tx.buf.At? || fifoTx == [] || Text(mem, fifoTx[0]) == payload))
      && (old(tx.buf.Null? && fifoTx != []) ==>
            && old(|fifoTx| == 1 && Pipeline(tx, mem, TxRest(), txLog) == txLog.done + [Text(mem, fifoTx[0])])
            && Pipeline(tx, mem, TxRest(), txLog) == old(txLog.done) + [payload] + [old(Text(mem, fifoTx[0]))])
    }

    twostate lemma MadeOrder()
      requires old(Core(0) && recvHand.None? && recvPos < |recvData|) && Core(0)
      requires 2 <= size && old(txLog.requests != []) && txLog == old(MadeLog())
      ensures PayloadAdded(old(Chunk(recvData, recvPos, size)))
    {
      hide RxInv, Owners, Sized, Writing, TxShape, TxStream, TxPrompt, Loaded, Pipeline, Text, Chunk;
      assert old(TxRest()) == old(fifoTx);
      PayloadOrder(old(tx), old(mem), old(TxRest()), old(txLog), tx, mem, TxRest(), txLog,
                   old(Chunk(recvData, recvPos, size)));
    }

    lemma Bounds()
      requires Writing(recvActive, recvData, recvPos, recvHand, txLog) && recvActive
      ensures |recvData| <= 0xffff && LastRequest(txLog, Request(recvData, recvPos))
    {
    }

    /** What sending the new block at once leaves behind. */
    lemma SentAtOnce(b: nat)
      requires Filling(b) && tx.buf.Null?
      ensures b < |mem| && |mem[b].data| == size && |recvData| <= 0xffff && txLog.requests != []
      ensures var mem' := MadeMem(b);
        var tx' := TxHalf(At(b, 0), At(b, 0), mem'[b].len, true);
        && OnlyBlock(mem, mem', b) && 0 < mem'[b].len == |Chunk(recvData, recvPos, size)| && Sized(mem', blocks, size)
        && Text(mem', b) == Chunk(recvData, recvPos, size)
        && RxInv(rx, mem', size, 0, RxLine(), rxLog) && Texts(mem', RxLine()) == RxTexts()
        && TxInv(tx', abortedBuf, abortedLen, mem', TxRest(), MadeLog())
        && Owners(Ref(rx.buf), Ref(rx.nextBuf), RxLine(), TxLine(tx', TxRest()), free, blocks)
        && Writing(true, recvData, recvPos + Take(|recvData|, recvPos, size), None, MadeLog())
    {
      hide RxInv, TxInv, Owners, Sized, TxLine, Writing, MadeLog, MadeMem, Text, Chunk;
      Bounds();
      MadeKeeps(b);
      DirectKeeps(b, MadeMem(b));
    }

    /** What keeping the new block in hand leaves behind. */
    lemma KeptInHand(b: nat)
      requires Filling(b) && tx.buf.At?
      ensures b < |mem| && |mem[b].data| == size && |recvData| <= 0xffff && txLog.requests != []
      ensures var mem' := MadeMem(b);
        && OnlyBlock(mem, mem', b) && 0 < mem'[b].len == |Chunk(recvData, recvPos, size)| && Sized(mem', blocks, size)
        && Text(mem', b) == Chunk(recvData, recvPos, size)
        && RxInv(rx, mem', size, 0, RxLine(), rxLog) && Texts(mem', RxLine()) == RxTexts()
        && TxInv(tx, abortedBuf, abortedLen, mem', fifoTx + Opt(Some(b)), MadeLog())
        && Owners(Ref(rx.buf), Ref(rx.nextBuf), RxLine(), TxLine(tx, fifoTx + Opt(Some(b))), free, blocks)
        && Writing(true, recvData, recvPos + Take(|recvData|, recvPos, size), Some(b), MadeLog())
    {
      hide RxInv, TxInv, Owners, Sized, TxLine, Writing, MadeLog, MadeMem, Text, Chunk;
      Bounds();
      MadeKeeps(b);
      BehindKeeps(b, MadeMem(b));
    }

    /** Fill a block with the next piece of the write and hand it to uart_tx. */
    method FillAndSend(b: nat)
      requires 2 <= size <= 0xffff && b < |mem| && |mem[b].data| == size
      requires recvPos < |recvData| <= 0xffff && txLog.requests != []
      modifies `mem, `tx, `recvPos, `recvHand, `txLog
      ensures mem == old(MadeMem(b)) && txLog == old(MadeLog())
      ensures recvPos == old(recvPos) + Take(|recvData|, old(recvPos), size)
      ensures b < |mem| && 0 < mem[b].len <= |mem[b].data|
      ensures recvHand == if old(tx.buf).At? then Some(b) else old(recvHand)
      ensures tx == if old(tx.buf).At? then old(tx) else TxHalf(At(b, 0), At(b, 0), mem[b].len, true)
    {
      hide Overwrite;
      txLog := MadeLog();
      FillBlock(b);
      var err := Tx(At(b, 0), mem[b].len);
      if err != Ok {
        recvHand := Some(b);
      }
    }

    /** The block just taken from the heap is filled and sent, or kept in hand. */
    method SendBlock(b: nat)
      requires Filling(b)
      modifies `mem, `tx, `recvPos, `recvBlock, `recvHand, `txLog
      ensures Core(0) && recvBlock.None? && b < |mem| && 2 <= size && old(recvPos) < |recvData|
      ensures RxTexts() == old(RxTexts())
      ensures OnlyBlock(old(mem), mem, b) && Text(mem, b) == old(Chunk(recvData, recvPos, size))
      ensures mem[b].len == |old(Chunk(recvData, recvPos, size))|
      ensures recvPos == old(recvPos) + Take(|recvData|, old(recvPos), size)
      ensures recvHand == if old(tx.buf).At? then Some(b) else None
      ensures tx == if old(tx.buf).At? then old(tx) else TxHalf(At(b, 0), At(b, 0), mem[b].len, true)
      ensures 0 < mem[b].len
      ensures old(LastRequest(txLog, Request(recvData, recvPos))) && txLog == old(MadeLog())
    {
      hide RxInv, TxInv, Owners, Sized, TxLine, Writing, MadeMem, MadeLog, Chunk;
      Bounds();
      if tx.buf.Null? {
        SentAtOnce(b);
      } else {
        KeptInHand(b);
      }
      FillAndSend(b);
      recvBlock := None;
      assert Loose() == free;
    }

    /** uart_tx was busy: the block in hand is queued. */
    method BtReceiveQueue()
      requires Valid() && recvHand.Some?
      modifies `fifoTx, `recvHand
      ensures Valid()
      ensures fifoTx == old(fifoTx) + [old(recvHand).value] && recvHand.None?
      ensures TxRest() == old(TxRest())
    {
      hide RxInv, TxInv, Owners, Sized, TxLine;
      assert (fifoTx + [recvHand.value]) + [] == TxRest();
      fifoTx := fifoTx + [recvHand.value];
      recvHand := None;
    }

    /** One whole round of the loop in bt_receive_cb: try to send, otherwise queue. */
    method BtReceiveTryThenQueue()
      requires Valid() && recvActive && recvPos < |recvData| && recvBlock.None? && recvHand.None?
      modifies `free, `mem, `tx, `fifoTx, `recvActive, `recvPos, `recvBlock, `recvHand, `txLog
      ensures Valid() && recvBlock.None? && recvHand.None? && txLog.stranded == old(txLog.stranded)
      ensures recvActive <==> old(free) != {}
      ensures old(free) == {} ==> recvPos == old(recvPos) && txLog == old(txLog) && free == {}
      ensures old(free) != {} ==>
        && recvPos == old(recvPos) + Take(|recvData|, old(recvPos), size)
        && recvPos <= |recvData|
        && |free| == |old(free)| - 1
        && txLog.submitted == old(txLog.submitted) + [Chunk(recvData, old(recvPos), size)]
        && txLog.requests == old(txLog.requests)[..|old(txLog.requests)| - 1] + [Request(recvData, recvPos)]
    {
      hide RxInv, TxInv, Owners, Sized, TxLine, Chunk;
      BtReceiveRound();
      if recvHand.Some? {
        BtReceiveQueue();
      }
    }

    /** bt_receive_cb with nothing else running in between. The write is cut into
      blocks until it ends or the heap is empty, and they are sent or queued in order. */
    method BtReceiveCb(data: seq<byte>)
      requires Valid() && ReceiverIdle(Now()) && |data| <= 0xffff
      modifies `free, `mem, `tx, `fifoTx, `recvActive, `recvData, `recvPos, `recvBlock, `recvHand, `txLog
      ensures Valid() && ReceiverIdle(Now())
      ensures var all := Chunks(data, 0, size);
        var made := if |all| <= |old(free)| then |all| else |old(free)|;
        && txLog.submitted == old(txLog.submitted) + all[..made]
        && |free| == |old(free)| - made
        && txLog.requests == old(txLog.requests) + [Request(data, recvPos)]
        && (recvPos == |data| <==> made == |all|)
      ensures txLog.stranded == old(txLog.stranded)
    {
      hide Core, Chunk;
      BtReceiveStart(data);
      ghost var made: seq<seq<byte>> := [];
      while recvPos != |recvData|
        invariant Valid() && recvActive && recvBlock.None? && recvHand.None? && recvData == data && recvPos <= |data|
        invariant Chunks(data, 0, size) == made + Chunks(data, recvPos, size)
        invariant txLog.submitted == old(txLog.submitted) + made
        invariant |free| == |old(free)| - |made|
        invariant txLog.requests == old(txLog.requests) + [Request(data, recvPos)]
        invariant txLog.stranded == old(txLog.stranded)
        decreases |recvData| - recvPos
      {
        ghost var before := recvPos;
        BtReceiveTryThenQueue();
        if !recvActive {
          return;
        }
        made := made + [Chunk(data, before, size)];
      }
    }

    // ----------------------------------------------------------- start-up

    /** Nothing has happened yet. */
    ghost predicate Quiet()
      reads `mem, `rx, `tx, `abortedBuf, `abortedLen, `disableReq, `fifoTx, `fifoRx, `workPending, `bleHand,
            `recvActive, `recvData, `recvPos, `recvBlock, `recvHand, `rxLog, `txLog
    {
      && 2 <= size <= 0xffff && Sized(mem, blocks, size)
      && rx == RxHalf(Null, Null, Null, 0, Null, 0, 0, false) && tx == TxHalf(Null, Null, 0, false)
      && abortedBuf == Null && abortedLen == 0 && !disableReq && !workPending
      && fifoTx == [] && fifoRx == [] && bleHand == None
      && !recvActive && recvData == [] && recvPos == 0 && recvBlock == None && recvHand == None
      && rxLog == RxLog([], [], []) && txLog == TxLog([], [], [], [], {})
    }

    ghost predicate Booted()
      reads this
    {
      Quiet() && free == AllBlocks(blocks)
    }

    /** `ram` is what the heap happens to hold. */
    constructor (blocks: nat, size: nat, rxWait: int, ram: seq<seq<byte>>)
      requires 2 <= size <= 0xffff && |ram| == blocks
      requires forall b :: 0 <= b < blocks ==> |ram[b]| == size
      ensures this.blocks == blocks && this.size == size && this.rxWait == rxWait
      ensures Booted()
    {
      this.blocks, this.size, this.rxWait := blocks, size, rxWait;
      mem := seq(blocks, b requires 0 <= b < blocks => Block(ram[b], 0));
      free := AllBlocks(blocks);
      rx := RxHalf(Null, Null, Null, 0, Null, 0, 0, false);
      tx := TxHalf(Null, Null, 0, false);
      abortedBuf, abortedLen, disableReq, workPending := Null, 0, false, false;
      fifoTx, fifoRx, bleHand := [], [], None;
      recvActive, recvData, recvPos, recvBlock, recvHand := false, [], 0, None, None;
      rxLog := RxLog([], [], []);
      txLog := TxLog([], [], [], [], {});
    }

    /** uart_init from the first allocation on; `greeting` is the text it prints. */
    method UartInit(greeting: seq<byte>) returns (ret: Status)
      requires Booted() && greeting != [] && greeting[|greeting| - 1] != CR
      modifies `free, `mem, `rx, `tx, `rxLog, `txLog
      ensures ret == Ok <==> 2 <= blocks && |greeting| < size
      ensures ret == Ok || ret == NoMem
      ensures ret == NoMem ==> free == old(free) && rx == old(rx) && tx == old(tx)
      ensures ret == Ok ==>
        && Valid() && |free| == blocks - 2 && !workPending
        && rx.nextBuf.At? && rx == RxHalf(Null, Null, Null, 0, rx.nextBuf, size, 50, true)
        && tx.buf.At? && tx == TxHalf(tx.buf, tx.buf, |greeting|, true)
        && txLog == TxLog([], [], [greeting], [Request(greeting, |greeting|)], {})
        && rxLog == RxLog([], [], [Supplied(rx.nextBuf.block)])
    {
      hide Quiet, Core, Owners, AllBlocks, RxLine, TxRest, Sized, Loose, Unfilled, WellCut;
      ret := NoMem;
      var ok, r, t := AllocateTwo();
      if !ok {
        return;
      }
      if |greeting| >= size {
        KFree(r);
        KFree(t);
        BothBack(old(free), r, t);
        return;
      }
      FirstBlocks(blocks, r, t);
      QuietFacts();
      ret := SendGreeting(r, t, greeting);
    }

    lemma OnlyBlockOf(n: nat, b: nat)
      requires b in AllBlocks(n) && AllBlocks(n) - {b} == {}
      ensures n == 1 && AllBlocks(n) - {b} + {b} == AllBlocks(n)
    {
      assert AllBlocks(n) == {b};
    }

    lemma BothBack(all: set<nat>, r: nat, t: nat)
      requires r in all && t in all
      ensures all - {r} - {t} + {r} + {t} == all
    {
    }

    /** The allocations of uart_init; the first block is given back if there is no second. */
    method AllocateTwo() returns (ok: bool, r: nat, t: nat)
      requires free == AllBlocks(blocks)
      modifies `free
      ensures ok <==> 2 <= blocks
      ensures !ok ==> free == old(free)
      ensures ok ==> r != t && r < blocks && t < blocks && free == old(free) - {r} - {t}
    {
      hide AllBlocks, Loose, Unfilled;
      ok, r, t := false, 0, 0;
      var pr := KMalloc();
      if pr.None? {
        return;
      }
      var pt := KMalloc();
      if pt.None? {
        KFree(pr.value);
        OnlyBlockOf(blocks, pr.value);
        return;
      }
      ok, r, t := true, pr.value, pt.value;
    }

    lemma QuietFacts()
      requires Quiet()
      ensures 2 <= size <= 0xffff && Sized(mem, blocks, size)
      ensures rx.buf.Null? && rx.nextBuf.Null? && rx.lastNotifyBuf.Null?
      ensures tx == TxHalf(Null, Null, 0, false) && abortedBuf == Null && abortedLen == 0 && !disableReq && !workPending
      ensures fifoTx == [] && fifoRx == [] && bleHand == None
      ensures !recvActive && recvData == [] && recvPos == 0 && recvBlock == None && recvHand == None
              && rxLog == RxLog([], [], [])
    {
    }

    /** Empty the first block and print the greeting, with its NUL, into the second. */
    method PrintGreeting(r: nat, t: nat, greeting: seq<byte>)
      requires 2 <= size <= 0xffff && Sized(mem, blocks, size) && r != t && r < blocks && t < blocks
      requires greeting != [] && greeting[|greeting| - 1] != CR && |greeting| < size
      modifies `mem
      ensures Sized(mem, blocks, size) && |mem| == blocks && mem[t].len == |greeting|
      ensures RxInv(RxHalf(Null, Null, Null, 0, At(r, 0), size, 50, true), mem, size, 0, [],
                    RxLog([], [], [Supplied(r)]))
      ensures TxInv(TxHalf(At(t, 0), At(t, 0), mem[t].len, true), Null, 0, mem, [],
                    TxLog([], [], [greeting], [Request(greeting, |greeting|)], {}))
    {
      hide RxInv, TxInv;
      RxFirst(mem, size, r, t, Block(Overwrite(mem[t].data, 0, greeting + [NUL]), |greeting|), 50);
      mem := mem[r := mem[r].(len := 0)];
      mem := mem[t := Block(Overwrite(mem[t].data, 0, greeting + [NUL]), |greeting|)];
      assert Text(mem, t) == greeting;
      TxFirst(mem, t, greeting);
    }

    /** The rest of uart_init: send the greeting, start reception. */
    method SendGreeting(r: nat, t: nat, greeting: seq<byte>) returns (ret: Status)
      requires 2 <= size <= 0xffff && Sized(mem, blocks, size)
      requires rx.buf.Null? && rx.nextBuf.Null? && rx.lastNotifyBuf.Null?
      requires tx == TxHalf(Null, Null, 0, false) && abortedBuf == Null && abortedLen == 0
      requires !disableReq && !workPending
      requires fifoTx == [] && fifoRx == [] && bleHand == None
      requires !recvActive && recvData == [] && recvPos == 0 && recvBlock == None && recvHand == None
              && rxLog == RxLog([], [], [])
      requires r != t && r < blocks && t < blocks && Owners([], [r], [], [t], free, blocks)
      requires greeting != [] && greeting[|greeting| - 1] != CR && |greeting| < size
      modifies `mem, `rx, `tx, `rxLog, `txLog
      ensures Valid() && ret == Ok
      ensures rx.nextBuf.At? && rx == RxHalf(Null, Null, Null, 0, rx.nextBuf, size, 50, true)
      ensures tx.buf.At? && tx == TxHalf(tx.buf, tx.buf, |greeting|, true)
      ensures txLog == TxLog([], [], [greeting], [Request(greeting, |greeting|)], {})
      ensures rxLog == RxLog([], [], [Supplied(rx.nextBuf.block)])
    {
      hide RxInv, TxInv, Owners, Sized, Core;
      PrintGreeting(r, t, greeting);
      ret := Tx(At(t, 0), mem[t].len);
      ret := RxEnable(At(r, 0), size, 50);
      assert rxLog.events == [Supplied(r)];
      txLog := TxLog([], [], [greeting], [Request(greeting, |greeting|)], {});
      GreetingValid(t);
    }

    /** The greeting is in flight, reception can begin, and no write has arrived. */
    lemma GreetingValid(t: nat)
      requires 2 <= size <= 0xffff && Sized(mem, blocks, size) && fifoTx == [] && fifoRx == [] && bleHand == None
      requires RxInv(rx, mem, size, 0, [], rxLog) && TxInv(tx, abortedBuf, abortedLen, mem, [], txLog)
      requires rx.buf.Null? && tx.buf == At(t, 0) && Owners([], Ref(rx.nextBuf), [], [t], free, blocks)
      requires !recvActive && recvData == [] && recvPos == 0 && recvBlock == None && recvHand == None
      ensures Core(0)
    {
      hide RxInv, TxInv, Owners, Sized;
      assert RxLine() == [] && TxRest() == [] && Loose() == free;
      assert TxLine(tx, []) == [t];
    }

    // ------------------------------------------------- runs of the system

    /** The transmit half of an interrupt. */
    method TxInterrupt(irq: Step)
      requires Valid() && irq.Irq?
      modifies `tx, `txLog, `abortedBuf, `abortedLen, `free, `fifoTx
      ensures Valid()
      ensures txLog == WireLog(old(Now()), irq) && free == FreeForRx(old(Now()), irq)
      ensures fifoTx == if Completes(old(Now()), irq) then NextFifo(old(fifoTx)) else old(fifoTx)
      ensures tx == WireTx(old(Now()), irq)
      ensures Pipeline(tx, mem, TxRest(), txLog) == old(Pipeline(tx, mem, TxRest(), txLog))
    {
      hide Core, Text, Pipeline;
      ghost var s := Now();
      InFlightOrIdle();
      NothingPushed();
      if tx.enabled && irq.txReady {
        OnTxReady(irq.room);
      }
      assert tx.sizeLeft == s.tx.sizeLeft - Pushes(s, irq);
      if tx.enabled && irq.txComplete {
        OnTxComplete();
      }
    }

    lemma NothingPushed()
      ensures tx.currBuf.At? && tx.buf.At? && tx.currBuf.off <= |Text(mem, tx.buf.block)| ==>
        txLog.wire + Text(mem, tx.buf.block)[tx.currBuf.off..tx.currBuf.off] == txLog.wire
    {
    }

    /** The receive half of an interrupt. */
    method RxInterrupt(rxReady: bool, avail: seq<byte>)
      requires Valid()
      modifies `rx, `rxLog, `free, `mem, `fifoRx, `disableReq, `workPending
      ensures Valid() && rxLog.sent == old(rxLog.sent) && old(rxLog.events) <= rxLog.events
      ensures Pipeline(tx, mem, TxRest(), txLog) == old(Pipeline(tx, mem, TxRest(), txLog))
      ensures rxReady && old(rx.enabled) ==> ListenDoes(old(Now()), avail, Now())
      ensures !(rxReady && old(rx.enabled)) ==> SameRx(old(Now()), Now()) && mem == old(mem) && free == old(free)
    {
      hide Core, Mark, Received, Room, Texts, WellCut, Pipeline;
      InSendingOrder();
      if rx.enabled && rxReady {
        OnRxReady(avail);
      }
      InSendingOrder();
    }

    /** The transmit fields do not matter to the receive half. */
    lemma ListenedAfterTx(s: State, t: State, avail: seq<byte>, s': State)
      requires ListenDoes(t, avail, s') && t.rx == s.rx && t.mem == s.mem && t.free == s.free && t.size == s.size
      requires t.rxLog == s.rxLog && t.fifoRx == s.fifoRx && t.bleHand == s.bleHand && t.wait == s.wait
      requires t.workPending == s.workPending
      ensures ListenDoes(s, avail, s')
    {
      hide Received, Room, Texts;
    }

    /** One UART interrupt. The flags are what the hardware reports, `room` is what
      its transmit FIFO can take and `avail` what its receive FIFO hands over. */
    method UartIrqHandler(txReady: bool, room: int, txComplete: bool, rxReady: bool, avail: seq<byte>)
      requires Valid()
      modifies this
      ensures Valid() && Next(old(Now()), Irq(txReady, room, txComplete, rxReady, avail), Now())
      ensures Pipeline(tx, mem, TxRest(), txLog) == old(Pipeline(tx, mem, TxRest(), txLog))
      // a busy transmitter pushes as much as fits; a block whose last byte is out is done once completion is signalled
      ensures |txLog.wire| == |old(txLog.wire)| + (if !txReady || room <= 0 || old(tx.buf.Null?) then 0
        else if room <= old(tx.sizeLeft) then room else old(tx.sizeLeft))
      ensures |txLog.done| == |old(txLog.done)| + (if txComplete && old(tx.buf.At?)
        && (old(tx.sizeLeft) == 0 || (txReady && room >= old(tx.sizeLeft))) then 1 else 0)
      // all that the receive FIFO has is taken if reception is on, and a bufferless adapter prepares a free block
      ensures rxReady && old(rx.enabled) ==> AllBytes(rxLog.hw) == old(AllBytes(rxLog.hw)) + avail
      ensures rxReady && old(rx.enabled && rx.buf.Null? && rx.nextBuf.Null? && free != {}) ==> rx.nextBuf.At?
      ensures !(rxReady && old(rx.enabled)) ==>
        rx == old(rx) && rxLog == old(rxLog) && fifoRx == old(fifoRx) && mem == old(mem)
      ensures SameWriter(old(Now()), Now())
    {
      hide Core, IrqDoes, WellCut, Pipeline, AllBytes;
      ghost var s := Now();
      TxIsSound();
      BothHalves(Irq(txReady, room, txComplete, rxReady, avail));
      IrqTransmitsBytes(s, Irq(txReady, room, txComplete, rxReady, avail), Now());
      if rxReady && s.rx.enabled {
        IrqReceives(s, Irq(txReady, room, txComplete, rxReady, avail), Now());
      } else {
        IrqDeaf(s, Irq(txReady, room, txComplete, rxReady, avail), Now());
      }
    }

    lemma TxIsSound()
      requires Valid()
      ensures TxSound(Now())
    {
      hide RxInv, Owners, TxStream, TxPrompt, Writing, WellCut;
      InFlightOrIdle();
      var line := TxLine(tx, TxRest());
      forall i | 0 <= i < |fifoTx|
        ensures fifoTx[i] < |mem| && 0 < mem[fifoTx[i]].len
      {
        assert fifoTx[i] == TxRest()[i] == line[i + |Ref(tx.buf)|];
      }
    }

    method BothHalves(irq: Step)
      requires Valid() && irq.Irq?
      modifies this
      ensures Valid() && IrqDoes(old(Now()), irq, Now()) && old(rxLog.events) <= rxLog.events
      ensures Pipeline(tx, mem, TxRest(), txLog) == old(Pipeline(tx, mem, TxRest(), txLog))
    {
      hide Core, IrqDoes, ListenDoes, WireLog, WireTx, FreeForRx, Completes, WellCut, Pipeline, Text, AllBytes;
      ghost var s := Now();
      TxInterrupt(irq);
      ghost var t := Now();
      RxInterrupt(irq.rxReady, irq.avail);
      HalvesMakeIrq(s, irq, t, Now());
    }

    /** The state `t` between the halves differs from `s` in what the transmit half
      changed, and `s'` from `t` in what the receive half changed. */
    lemma HalvesMakeIrq(s: State, irq: Step, t: State, s': State)
      requires irq.Irq? && SameRx(s, t) && SameWriter(s, t) && t.mem == s.mem && t.size == s.size && t.wait == s.wait
      requires t.txLog == WireLog(s, irq) && t.tx == WireTx(s, irq) && t.free == FreeForRx(s, irq)
      requires t.fifoTx == if Completes(s, irq) then NextFifo(s.fifoTx) else s.fifoTx
      requires s'.txLog == t.txLog && s'.tx == t.tx && s'.fifoTx == t.fifoTx && SameWriter(t, s')
      requires s'.bleHand == t.bleHand && s'.rxLog.sent == t.rxLog.sent
      requires if irq.rxReady && t.rx.enabled then ListenDoes(t, irq.avail, s')
               else SameRx(t, s') && s'.mem == t.mem && s'.free == t.free
      ensures IrqDoes(s, irq, s')
    {
      hide ListenDoes, WireLog, WireTx, FreeForRx, Completes;
      if irq.rxReady && t.rx.enabled {
        ListenedAfterTx(AfterTx(s, irq), t, irq.avail, s');
      }
    }

    lemma InSendingOrder()
      requires Valid()
      ensures Pipeline(tx, mem, TxRest(), txLog) == Passed(txLog.submitted, txLog.stranded)
    {
      hide RxInv, Owners, Writing, TxShape, TxPrompt, Loaded;
    }

    lemma InFlightOrIdle()
      requires Valid()
      ensures tx.enabled <==> tx.buf.At?
      ensures tx.enabled ==> InFlight() && tx.currBuf.off + tx.sizeLeft == |Text(mem, tx.buf.block)|
    {
      hide RxInv, Owners, TxStream, TxPrompt, Writing, Loaded;
      if tx.enabled {
        FlightShape(0);
      }
    }

    /** A step, if it can be taken now. */
    method Perform(step: Step)
      requires Valid()
      modifies this
      ensures Valid() && Next(old(Now()), step, Now())
    {
      hide Core, WellCut, IrqDoes, Pipeline, AllocDoes, SendDoes, TimerDoes, WorkDoes;
      match step {
        case Irq(txReady, room, txComplete, rxReady, avail) =>
          UartIrqHandler(txReady, room, txComplete, rxReady, avail);
        case Abort =>
          if tx.buf.At? ==> tx.sizeLeft > 0 {
            var ret := TxAbort();
          }
        case Write(_) => WriterStep(step);
        case Alloc => RoundStep(step);
        case Send => RoundStep(step);
        case Queue => WriterStep(step);
        case RxTimer => ReceiverStep(step);
        case Work => ReceiverStep(step);
        case _ => BleStep(step);
      }
    }

    method ReceiverStep(step: Step)
      requires Valid() && (step.RxTimer? || step.Work?)
      modifies this
      ensures Valid() && Next(old(Now()), step, Now())
    {
      hide Core, WellCut, Texts, Text, Unnotified, IrqDoes, AllocDoes, SendDoes, EndsLine;
      match step {
        case RxTimer => RxTimeout();
        case Work =>
          if workPending {
            UartWorkHandler();
          }
      }
    }

    method BleStep(step: Step)
      requires Valid() && (step.BleGet? || step.BleSend?)
      modifies this
      ensures Valid() && Next(old(Now()), step, Now())
    {
      hide Core, WellCut, Texts, Text, IrqDoes, AllocDoes, SendDoes, TimerDoes, WorkDoes;
      match step {
        case BleGet =>
          if bleHand.None? && fifoRx != [] {
            BleThreadGet();
          }
        case BleSend =>
          if bleHand.Some? {
            BleThreadSend();
          }
      }
    }

    method WriterStep(step: Step)
      requires Valid() && (step.Write? || step.Queue?)
      modifies this
      ensures Valid() && Next(old(Now()), step, Now())
    {
      hide Core, WellCut, IrqDoes, AllocDoes, SendDoes, TimerDoes, WorkDoes;
      match step {
        case Write(data) =>
          if recvBlock.None? && recvHand.None? && (recvActive ==> recvPos == |recvData|) && |data| <= 0xffff {
            BtReceiveStart(data);
          }
        case Queue =>
          if recvHand.Some? {
            BtReceiveQueue();
          }
      }
    }

    method RoundStep(step: Step)
      requires Valid() && (step.Alloc? || step.Send?)
      modifies this
      ensures Valid() && Next(old(Now()), step, Now())
    {
      hide Core, WellCut, Submit, PayloadAdded, Take, Chunk, Text, IrqDoes, TimerDoes, WorkDoes;
      match step {
        case Alloc =>
          if recvActive && recvPos < |recvData| && recvBlock.None? && recvHand.None? {
            BtReceiveAlloc();
          }
        case Send =>
          if recvBlock.Some? {
            BtReceiveSend();
          }
      }
    }

    /** Every run, whatever the order of its steps. `trace` is the run: the state
      before each step and the last one, each what the step makes of the one before. */
    method Run(steps: seq<Step>) returns (ghost trace: seq<State>)
      requires Valid()
      modifies this
      ensures Valid()
      ensures IsRun(trace, steps) && trace[0] == old(Now()) && trace[|steps|] == Now() && Alive(trace[0])
      // reception: what BLE got, what waits for it and what is in the current buffer is what was received and kept,
      // and each interrupt of the run kept exactly what it had room for
      ensures Flat(rxLog.sent) + Flat(RxTexts()) + Filled(mem, rx) == KeptBytes(rxLog.hw)
      ensures WellCut(BlePayloads(), size)
      ensures KeptBytes(rxLog.hw) == old(KeptBytes(rxLog.hw)) + KeptIn(trace, steps)
      ensures AllBytes(rxLog.hw) == old(AllBytes(rxLog.hw)) + HeardIn(trace, steps)
      ensures Monitor(rxLog.events, size) == Some(Slots(rx))
      ensures rx.enabled == !workPending
      // transmission: the texts are those that arrived in the run; their payloads are sent, in flight, queued or in
      // hand, once, each passed by the next one if a TX_DONE of the run stranded it, and otherwise in order
      ensures Datas(txLog.requests) == old(Datas(txLog.requests)) + WrittenIn(trace, steps)
      ensures txLog.stranded == old(txLog.stranded) + StrandedIn(trace, steps)
      ensures Flat(txLog.submitted) == Requested(txLog.requests)
      ensures Pipeline(tx, mem, TxRest(), txLog) == Passed(txLog.submitted, txLog.stranded)
      ensures Pipeline(tx, mem, TxRest(), txLog) == txLog.submitted <==> PassedUnseen(txLog)
      ensures multiset(Pipeline(tx, mem, TxRest(), txLog)) == multiset(txLog.submitted)
      ensures txLog.wire == Flat(txLog.done) + Pushed(tx, mem)
      // no block waits beside an idle transmitter but one that was stranded last
      ensures tx.buf.Null? && TxRest() != [] <==> |txLog.submitted| - 1 in txLog.stranded
      ensures old(rxLog.sent) <= rxLog.sent && old(txLog.wire) <= txLog.wire && old(txLog.done) <= txLog.done
    {
      hide Core, WellCut, Next, KeptBytes, AllBytes, Flat, Texts, Filled, Passed, PassedUnseen, Requested,
           Monitor, Slots, Pipeline, Pushed, KeptIn, HeardIn, WrittenIn, StrandedIn, Datas;
      trace := [Now()];
      for i := 0 to |steps|
        invariant Valid() && |trace| == i + 1 && trace[0] == old(Now()) && trace[i] == Now()
        invariant forall j :: 0 <= j < i ==> Next(trace[j], steps[j], trace[j + 1])
      {
        Perform(steps[i]);
        trace := trace + [Now()];
      }
      RunHistory(trace, steps);
      RunPromises();
    }

    lemma RunPromises()
      requires Valid()
      ensures Flat(rxLog.sent) + Flat(RxTexts()) + Filled(mem, rx) == KeptBytes(rxLog.hw)
      ensures WellCut(BlePayloads(), size)
      ensures Monitor(rxLog.events, size) == Some(Slots(rx))
      ensures Pipeline(tx, mem, TxRest(), txLog) == Passed(txLog.submitted, txLog.stranded)
      ensures Pipeline(tx, mem, TxRest(), txLog) == txLog.submitted <==> PassedUnseen(txLog)
      ensures multiset(Pipeline(tx, mem, TxRest(), txLog)) == multiset(txLog.submitted)
      ensures Flat(txLog.submitted) == Requested(txLog.requests)
      ensures txLog.wire == Flat(txLog.done) + Pushed(tx, mem)
      ensures tx.buf.Null? && TxRest() != [] <==> |txLog.submitted| - 1 in txLog.stranded
    {
      hide Owners, RxShape, TxShape, WellCut, Pipeline, Flat, Requested, KeptBytes, Monitor, Loaded;
      SendingOrder(tx, mem, TxRest(), txLog);
    }

    /** A receive interrupt with at most a buffer's worth of bytes meets an adapter
      that holds no bytes: they are queued if they fill a buffer, and otherwise
      wait in the current buffer to be reported. */
    method Listen(avail: seq<byte>)
      requires Valid() && rx.enabled && rx.nextBuf.At? && rx.sizeLeft == 0 && rx.timeout != 0 && rxWait != 0
      requires rx.buf.Null? && bleHand.None? && fifoRx == [] && rxLog.hw == [] && rxLog.sent == []
      requires 0 < |avail| <= size
      modifies this
      ensures Valid() && rxLog.sent == [] && bleHand.None?
      ensures RxTexts() == if |avail| == size then [avail] else []
      ensures Unnotified(mem, rx) == Filled(mem, rx) == if |avail| == size then [] else avail
    {
      hide Core, WellCut, KeptBytes, AllBytes, Flat, Passed, PassedUnseen, Requested, Monitor, Pipeline,
           Pushed, KeptIn, HeardIn, WrittenIn, StrandedIn, Next, Datas, Slots, Texts, Unnotified, Filled;
      NextNotFree();
      NoTexts();
      ghost var trace := Run([Irq(false, 0, false, true, avail)]);
      IrqReceives(trace[0], Irq(false, 0, false, true, avail), trace[1]);
      IrqReports(trace[0], Irq(false, 0, false, true, avail), trace[1]);
      HoldsLess();
      FewerIsLess(1, 1 + |trace[0].free|, size);
      assert First(avail, trace[0].rx.sizeLeft + (1 + |trace[0].free|) * size) == avail;
      assert KeptBytes(rxLog.hw) == [] + avail;
      assert rxLog.sent == [];
      assert Flat([]) + Flat(RxTexts()) + Filled(mem, rx) == avail;
      assert [] + Flat(RxTexts()) == Flat(RxTexts());
      assert Flat(RxTexts()) + Filled(mem, rx) == avail;
      OneBuffer(RxTexts(), Filled(mem, rx), avail, size);
    }

    /** The timer fires. */
    method FireTimer()
      requires Valid()
      modifies this
      ensures Valid() && rxLog.sent == old(rxLog.sent)
      ensures RxTexts() == old(RxTexts()) + (if IsLine(old(Unnotified(mem, rx))) then [old(Filled(mem, rx))] else [])
    {
      hide Core, WellCut, KeptBytes, AllBytes, Flat, Passed, PassedUnseen, Requested, Monitor, Pipeline,
           Pushed, KeptIn, HeardIn, WrittenIn, StrandedIn, Next, Datas, Slots, Texts, Unnotified, Filled;
      ghost var trace := Run([RxTimer]);
      TimerReports(trace[0], trace[1]);
    }

    /** The BLE thread runs until it has nothing left. */
    method RunBle()
      requires Valid()
      modifies this
      ensures Valid() && rxLog.sent == old(rxLog.sent) + old(RxTexts())
    {
      hide Core, WellCut, KeptBytes, AllBytes, Flat, Passed, PassedUnseen, Requested, Monitor, Pipeline,
           Pushed, KeptIn, HeardIn, WrittenIn, StrandedIn, Next, Datas, Slots, Texts, Unnotified, Filled, BleRounds;
      var n := |fifoRx| + 2;
      ghost var trace := Run(BleRounds(n));
      BleDelivers(trace, n);
    }

    lemma NoTexts()
      requires bleHand.None? && fifoRx == []
      ensures RxTexts() == []
    {
    }

    lemma HoldsLess()
      requires Valid() && (rx.buf.Null? <==> rx.sizeLeft == 0)
      requires rx.buf.At? ==> rx.lastNotifyBuf.At? && rx.lastNotifyBuf.off == 0
      ensures |Filled(mem, rx)| < size && Unnotified(mem, rx) == Filled(mem, rx)
      ensures Flat(rxLog.sent) + Flat(RxTexts()) + Filled(mem, rx) == KeptBytes(rxLog.hw)
      ensures Flat([]) == [] && KeptBytes([]) == []
    {
      hide RxTrace, TxInv, Owners, Writing, Loaded, WellCut;
    }

    /** Every block is free or held in exactly one place, once. */
    lemma OneHolder(b: nat)
      requires Valid() && b < blocks
      ensures One(b in Ref(rx.buf)) + One(b in Ref(rx.nextBuf)) + One(b in Opt(bleHand)) + One(b in fifoRx)
            + One(b in Ref(tx.buf)) + One(b in fifoTx) + One(b in Opt(recvHand)) + One(recvBlock == Some(b))
            + One(b in free) == 1
      ensures multiset(fifoRx)[b] <= 1 && multiset(fifoTx)[b] <= 1
    {
      hide RxInv, TxInv, Owners;
      OnePlace(Ref(rx.buf), Ref(rx.nextBuf), Opt(bleHand), fifoRx, Ref(tx.buf), fifoTx, Opt(recvHand), recvBlock, free,
               blocks, b);
    }

    /** The buffers' whole history: released at most once, in supply order, reported
      in tiles that start where the last one ended, and silent once released. */
    lemma BufferHistory(i: nat, j: nat)
      requires Valid() && i < j < |rxLog.events|
      ensures Supplies(rxLog.events) == Releases(rxLog.events) + Bufs(Slots(rx))
      ensures rxLog.events[j].Ready? ==>
        && rxLog.events[j].offset == Reported(rxLog.events[..j], rxLog.events[j].buf)
        && 0 < rxLog.events[j].len && rxLog.events[j].offset + rxLog.events[j].len <= size
      ensures var e := rxLog.events[j];
        (e.Ready? || e.Released?) && rxLog.events[i] == Released(e.buf) ==>
        exists k :: i < k < j && rxLog.events[k] == Supplied(rxLog.events[j].buf)
    {
      hide TxInv, Owners, Supplies, Releases, Reported, Monitor;
      ReleasedInSupplyOrder(rxLog.events, size);
      if rxLog.events[j].Ready? {
        ReportsTile(rxLog.events, j, size);
      }
      if (rxLog.events[j].Ready? || rxLog.events[j].Released?) && rxLog.events[i] == Released(rxLog.events[j].buf) {
        SilentAfterRelease(rxLog.events, i, j, rxLog.events[j].buf, size);
      }
    }

    /** The wire, the rest of the block in flight and the waiting blocks spell out
      the payloads in sending order; that is the greeting and the writes, in
      order, unless a payload was passed by a different one. */
    lemma WireText()
      requires Valid()
      ensures var remainder := if tx.buf.At? then Text(mem, tx.buf.block)[tx.currBuf.off..] else [];
        && txLog.wire + remainder + Flat(Texts(mem, TxRest())) == Flat(Passed(txLog.submitted, txLog.stranded))
        && (PassedUnseen(txLog) ==> txLog.wire + remainder + Flat(Texts(mem, TxRest())) == Requested(txLog.requests))
    {
      hide RxInv, Owners, Requested, Flat, TxStream;
      WireInOrder(tx, abortedBuf, abortedLen, mem, TxRest(), txLog);
    }

    /** Transmit interrupts alone drain the transmitter and its queue, and each
      of them but the first puts at least one byte on the wire. */
    method DrainTx() returns (irqs: nat)
      requires Valid()
      modifies this
      ensures Valid()
      ensures tx.buf.Null? && (fifoTx == [] <==> old(tx.buf.At? || fifoTx == []))
      ensures Pipeline(tx, mem, TxRest(), txLog) == old(Pipeline(tx, mem, TxRest(), txLog))
      ensures irqs <= 1 + |txLog.wire| - |old(txLog.wire)|
      ensures fifoTx == [] && recvHand.None? ==> txLog.wire == Flat(old(Pipeline(tx, mem, TxRest(), txLog)))
      ensures fifoTx == [] && recvHand.None? && PassedUnseen(txLog) ==> txLog.wire == Requested(txLog.requests)
      ensures rx == old(rx) && rxLog == old(rxLog) && mem == old(mem) && SameWriter(old(Now()), Now())
    {
      hide Core, WellCut, Pipeline, Requested, Text, Texts, Next;
      irqs := 0;
      while tx.buf.At?
        invariant Valid()
        invariant Pipeline(tx, mem, TxRest(), txLog) == old(Pipeline(tx, mem, TxRest(), txLog))
        invariant old(tx.buf.Null?) ==> fifoTx == old(fifoTx) && tx.buf.Null?
        invariant tx.buf.Null? && old(tx.buf).At? ==> fifoTx == []
        invariant irqs > 0 && tx.buf.At? ==> tx.sizeLeft > 0
        invariant irqs <= (if irqs > 0 then 1 else 0) + |txLog.wire| - |old(txLog.wire)|
        invariant rx == old(rx) && rxLog == old(rxLog) && mem == old(mem) && SameWriter(old(Now()), Now())
        decreases |fifoTx| + |Ref(tx.buf)|, tx.sizeLeft
      {
        var room: int :| room > 0;
        ghost var s := Now();
        TxIsSound();
        UartIrqHandler(true, room, true, false, []);
        IrqTransmits(s, Irq(true, room, true, false, []), Now());
        irqs := irqs + 1;
      }
      if fifoTx == [] && recvHand.None? {
        DrainedWire();
      }
    }

    lemma DrainedWire()
      requires Valid() && tx.buf.Null? && TxRest() == []
      ensures txLog.wire == Flat(Pipeline(tx, mem, TxRest(), txLog))
      ensures PassedUnseen(txLog) ==> txLog.wire == Requested(txLog.requests)
    {
      hide RxInv, Owners;
      PassedSame(txLog.submitted, txLog.stranded);
      assert TxLine(tx, TxRest()) == [];
      assert txLog.done + Texts(mem, []) == txLog.done;
    }

    /** Any mixture of partial fills (`Some`) and aborts that leave something to
      push (`None`), then completion: the block's payload is on the wire once and
      whole, its block is freed once, and nothing of the aborts is left behind. */
    method TransmitThroughAborts(plan: seq<Option<int>>)
      requires Valid() && tx.buf.At?
      modifies `tx, `txLog, `abortedBuf, `abortedLen, `free, `fifoTx
      ensures Valid()
      ensures txLog.done == old(txLog.done) + [old(Text(mem, tx.buf.block))]
      ensures txLog.wire == Flat(txLog.done)
      ensures old(tx.buf.block) !in old(free) && free == old(free) + {old(tx.buf.block)}
      ensures abortedBuf.Null? && abortedLen == 0
    {
      hide RxInv, Owners, Sized, TxStream, TxPrompt, Loaded, Pipeline, Text;
      InFlightNotFree();
      for i := 0 to |plan|
        invariant Valid() && tx.buf.At? && tx.buf.block == old(tx.buf.block)
        invariant free == old(free) && fifoTx == old(fifoTx) && txLog == old(txLog).(wire := txLog.wire)
      {
        match plan[i] {
          case Some(room) => OnTxReady(room);
          case None =>
            if tx.sizeLeft > 0 {
              var ret := TxAbort();
            }
        }
      }
      OnTxReady(tx.sizeLeft);
      OnTxComplete();
      FreshStart();
    }

    lemma InFlightNotFree()
      requires Valid() && tx.buf.At?
      ensures tx.buf.block !in free
    {
      hide RxInv, TxInv, Owners;
      assert TxLine(tx, TxRest())[0] == tx.buf.block;
      Separate(Ref(rx.buf), Ref(rx.nextBuf), RxLine(), TxLine(tx, TxRest()), Loose(), blocks, tx.buf.block);
    }

    lemma FreshStart()
      requires Valid() && (tx.buf.At? ==> tx.currBuf.At? && tx.currBuf.off == 0)
      ensures txLog.wire == Flat(txLog.done)
    {
      hide RxInv, Owners, Flat;
      assert Pushed(tx, mem) == [];
    }

    // -------------------------------- what the design does not guarantee

    /** How the order is lost: TX_DONE arrives after uart_tx was busy and before
      k_fifo_put, so the block is queued while nothing is being sent, and the
      first block of the next write is sent ahead of it. The two payloads end up
      in the wrong order exactly if they differ. */
    method LateQueueIsOvertaken(data: seq<byte>)
      requires Valid() && tx.enabled && tx.sizeLeft == 0 && fifoTx == [] && recvHand.Some? && recvPos == |recvData|
      requires 0 < |data| <= 0xffff
      modifies this
      ensures Valid()
      ensures fifoTx == [old(recvHand).value] && tx.buf.At? && tx.sizeLeft > 0
      ensures var late, payload := old(Text(mem, recvHand.value)), Chunk(data, 0, size);
        && old(Pipeline(tx, mem, TxRest(), txLog)
               == txLog.done + [Text(mem, tx.buf.block)] + [Text(mem, recvHand.value)])
        && txLog.submitted == old(txLog.submitted) + [payload]
        && txLog.done == old(txLog.done) + [old(Text(mem, tx.buf.block))]
        && Pipeline(tx, mem, TxRest(), txLog) == txLog.done + [payload] + [late]
        && (Pipeline(tx, mem, TxRest(), txLog) == old(Pipeline(tx, mem, TxRest(), txLog)) + [payload] <==>
            payload == late)
    {
      hide Core, Chunk, Text, Texts, Pipeline, Submit, MadeLog, Loaded;
      SizePositive();
      InFlightOrIdle();
      PipelineOfTwo();
      OnTxComplete();
      BtReceiveQueue();
      BtReceiveStart(data);
      BtReceiveRound();
    }

    /** A short write arrives while the first block is being sent, and is about to
      be queued when the last byte of that block is pushed. */
    method WriteWhileBusy(data: seq<byte>)
      requires Valid() && ReceiverIdle(Now()) && tx.buf.At? && fifoTx == [] && free != {}
      requires 0 < |data| < size && |data| <= 0xffff
      modifies `recvActive, `recvData, `recvPos, `recvBlock, `recvHand, `txLog, `free, `mem, `tx
      ensures Valid() && tx.buf.At? && tx.enabled && tx.sizeLeft == 0 && recvHand.Some? && recvPos == |recvData|
      ensures txLog.submitted == old(txLog.submitted) + [Chunk(data, 0, size)]
      ensures txLog.done == old(txLog.done) && txLog.stranded == old(txLog.stranded)
    {
      hide Core, Chunk, Text, Texts, Pipeline, Submit, MadeLog, Loaded;
      SizePositive();
      InFlightOrIdle();
      BtReceiveStart(data);
      BtReceiveRound();
      OnTxReady(tx.sizeLeft);
    }

    lemma PipelineOfTwo()
      requires tx.buf.At? && fifoTx == [] && recvHand.Some?
      ensures Pipeline(tx, mem, TxRest(), txLog) == txLog.done + [Text(mem, tx.buf.block)] + [Text(mem, recvHand.value)]
    {
      hide Text;
      assert TxLine(tx, TxRest()) == [tx.buf.block, recvHand.value];
    }

    /** An abort after the last byte was pushed costs the heap a block for good:
      the next block sent is the one whose TX_DONE frees the aborted block, and
      then nobody refers to the block that was sent. */
    method LateAbortLosesBlock(data: seq<byte>) returns (lost: nat)
      requires Valid() && tx.buf.At? && tx.sizeLeft == 0 && fifoTx == [] && ReceiverIdle(Now()) && free != {}
      requires 0 < |data| <= 0xffff
      modifies this
      ensures lost < blocks && lost !in free && abortedBuf.Null?
      ensures lost !in Ref(rx.buf) && lost !in Ref(rx.nextBuf) && lost !in RxLine() && lost !in TxLine(tx, TxRest())
      ensures recvBlock.None? && recvHand.None?
    {
      hide RxInv, Owners, TxStream, TxPrompt, Loaded, Pipeline, Writing;
      InFlightNotFree();
      FreeApart();
      assert TxRest() == [];
      var ret := TxAbort();
      lost := SendAfterLateAbort(data);
    }

    lemma FreeApart()
      requires Valid()
      ensures forall b :: b in free ==>
        b < blocks && b !in Ref(rx.buf) && b !in Ref(rx.nextBuf) && b !in RxLine() && b !in TxLine(tx, TxRest())
    {
      hide RxInv, TxInv, Owners;
      forall b | b in free
        ensures b < blocks && b !in Ref(rx.buf) && b !in Ref(rx.nextBuf) && b !in RxLine() && b !in TxLine(tx, TxRest())
      {
        Separate(Ref(rx.buf), Ref(rx.nextBuf), RxLine(), TxLine(tx, TxRest()), Loose(), blocks, b);
      }
    }

    /** The first round of bt_receive_cb, and its block's transmission, with an
      idle transmitter that still remembers an aborted block. */
    method SendAfterLateAbort(data: seq<byte>) returns (b: nat)
      requires 2 <= size <= 0xffff && 0 < |data| <= 0xffff
      requires Sized(mem, blocks, size)
      requires tx == TxHalf(Null, Null, 0, false) && fifoTx == [] && recvHand.None? && free != {}
      requires abortedBuf.At? && abortedBuf.off == 0 && abortedBuf.block !in free
      requires forall b :: b in free ==> b < blocks && b != abortedBuf.block
      modifies `free, `mem, `tx, `txLog, `abortedBuf, `abortedLen, `fifoTx, `recvActive, `recvData, `recvPos, `recvHand
      ensures b in old(free) && free == old(free) - {b} + {old(abortedBuf).block}
      ensures tx == old(tx) && fifoTx == [] && abortedBuf.Null? && recvHand.None?
    {
      hide Chunk, Overwrite, MadeLog, Stranded, Text;
      BeginWrite(data);
      var p := KMalloc();
      b := p.value;
      FillAndSend(b);
      assert mem[b].len <= |mem[b].data|;
      FillFifo(tx.sizeLeft);
      FinishTransfer();
    }
  }

  lemma EmptyHistory(text: seq<byte>)
    ensures KeptBytes([]) == [] && AllBytes([]) == []
    ensures Datas([Request(text, |text|)]) == [text]
  {
  }

  /** From power-up: any run of the bridge as it is built, from the greeting on. */
  method Session(blocks: nat, size: nat, ram: seq<seq<byte>>, steps: seq<Step>)
    returns (bridge: Bridge, ghost trace: seq<State>)
    requires 2 <= blocks == |ram| && |WELCOME| < size <= 0xffff
    requires forall b :: 0 <= b < blocks ==> |ram[b]| == size
    ensures fresh(bridge) && bridge.Valid() && IsRun(trace, steps) && trace[|steps|] == bridge.Now()
    ensures Alive(trace[0]) && Prepared(trace[0]) && trace[0].wait == 50 && trace[0].rx.timeout == 50
    ensures trace[0].rxLog.hw == [] && trace[0].rxLog.sent == []
    ensures trace[0].txLog.wire == [] && trace[0].txLog.submitted == [WELCOME]
    // what BLE got, what waits for it and what is being filled is what the interrupts had room for
    ensures Flat(bridge.rxLog.sent) + Flat(bridge.RxTexts()) + Filled(bridge.mem, bridge.rx) == KeptIn(trace, steps)
    // in payloads that fill a buffer or end with a line's end
    ensures WellCut(bridge.BlePayloads(), size)
    // the texts to send are the greeting and the writes that arrived
    ensures Datas(bridge.txLog.requests) == [WELCOME] + WrittenIn(trace, steps)
    ensures Flat(bridge.txLog.submitted) == Requested(bridge.txLog.requests)
    ensures Pipeline(bridge.tx, bridge.mem, bridge.TxRest(), bridge.txLog)
         == Passed(bridge.txLog.submitted, StrandedIn(trace, steps))
  {
    hide Bridge.Core, WellCut, WELCOME, KeptBytes, AllBytes, Flat, Texts, Filled, Passed, PassedUnseen, Requested,
         Monitor, Pipeline, Pushed, KeptIn, HeardIn, WrittenIn, StrandedIn, IsRun, Next, Datas;
    WelcomeText();
    EmptyHistory(WELCOME);
    bridge := new Bridge(blocks, size, 50, ram);
    var ret := bridge.UartInit(WELCOME);
    trace := bridge.Run(steps);
  }

  /** From power-up: bytes of a buffer's worth arrive, the timer fires and the BLE
    thread runs. They are sent, as one payload, exactly if they fill a buffer or
    end with a line's end. */
  method LineReachesBle(blocks: nat, size: nat, ram: seq<seq<byte>>, avail: seq<byte>) returns (bridge: Bridge)
    requires 2 <= blocks == |ram| && |WELCOME| < size <= 0xffff && 0 < |avail| <= size
    requires forall b :: 0 <= b < blocks ==> |ram[b]| == size
    ensures fresh(bridge) && bridge.Valid()
    ensures bridge.rxLog.sent
      == if |avail| == size || avail[|avail| - 1] == 13 || avail[|avail| - 1] == 10 then [avail] else []
  {
    hide Bridge.Core, WELCOME, WellCut, KeptBytes, AllBytes, Flat, Passed, PassedUnseen, Requested, Monitor, Pipeline,
         Pushed, KeptIn, HeardIn, WrittenIn, StrandedIn, Next, Datas, Slots, AllBlocks, Sized, Texts, Unnotified,
         Filled;
    bridge := PowerUp(blocks, size, ram);
    bridge.Listen(avail);
    bridge.FireTimer();
    bridge.RunBle();
  }

  /** The bridge as it is built, once uart_init is through. */
  method PowerUp(blocks: nat, size: nat, ram: seq<seq<byte>>) returns (bridge: Bridge)
    requires 2 <= blocks == |ram| && |WELCOME| < size <= 0xffff
    requires forall b :: 0 <= b < blocks ==> |ram[b]| == size
    ensures fresh(bridge) && bridge.Valid() && bridge.size == size && bridge.blocks == blocks && bridge.rxWait == 50
    ensures bridge.rx.nextBuf.At? && bridge.rx == RxHalf(Null, Null, Null, 0, bridge.rx.nextBuf, size, 50, true)
    ensures bridge.bleHand.None? && bridge.fifoRx == [] && |bridge.free| == blocks - 2
    ensures bridge.rxLog.hw == [] && bridge.rxLog.sent == []
    ensures bridge.tx.buf.At? && bridge.fifoTx == []
    ensures bridge.txLog == TxLog([], [], [WELCOME], [Request(WELCOME, |WELCOME|)], {})
    ensures !bridge.recvActive && bridge.recvBlock.None? && bridge.recvHand.None?
  {
    hide Bridge.Core, WELCOME, Sized, AllBlocks, WellCut, Bridge.RxLine, Bridge.TxRest;
    WelcomeText();
    bridge := new Bridge(blocks, size, 50, ram);
    var ret := bridge.UartInit(WELCOME);
  }

  /** From power-up: a write that the heap has room for, and transmit interrupts.
    The wire shows the greeting and the write, with an LF behind a final CR. */
  method WriteReachesWire(blocks: nat, size: nat, ram: seq<seq<byte>>, data: seq<byte>) returns (bridge: Bridge)
    requires 2 <= blocks == |ram| && |WELCOME| < size <= 0xffff
    requires forall b :: 0 <= b < blocks ==> |ram[b]| == size
    requires |data| <= 0xffff && |data| <= (blocks - 2) * (size - 1)
    ensures fresh(bridge) && bridge.Valid()
    ensures bridge.txLog.wire == Ascii("Starting Nordic UART service example\r\n") + data
      + (if data != [] && data[|data| - 1] == 13 then [10] else [])
  {
    hide Bridge.Core, WELCOME, WellCut, KeptBytes, AllBytes, Flat, Passed, Requested, Monitor, Pipeline,
         Pushed, KeptIn, HeardIn, WrittenIn, StrandedIn, Next, Datas, Slots, AllBlocks, Sized, Texts, Unnotified,
         Filled, WriterRounds, Chunks, Ascii;
    WelcomeText();
    bridge := PowerUp(blocks, size, ram);
    ChunksFew(data, size, blocks - 2);
    var steps := [Write(data)] + WriterRounds(|data|);
    WriterIsNoIrq(|data|);
    ghost var trace := bridge.Run(steps);
    WriteIsSubmitted(trace, data, |data|);
    NoneStranded(trace, steps);
    FlatOne(WELCOME);
    InOrder(bridge);
    var irqs := bridge.DrainTx();
  }

  /** The order is lost in a run from power-up with three blocks of 40 bytes: the
    peer sends "A" and then "B", and "B" goes out first. */
  method LateQueueFromBoot(ram: seq<seq<byte>>) returns (bridge: Bridge)
    requires |ram| == 3 && forall b :: 0 <= b < 3 ==> |ram[b]| == 40
    ensures fresh(bridge) && bridge.Valid()
    ensures bridge.txLog.submitted == [WELCOME, [65], [66]]
    ensures Pipeline(bridge.tx, bridge.mem, bridge.TxRest(), bridge.txLog) == [WELCOME, [66], [65]]
  {
    hide Bridge.Core, WellCut, WELCOME, Chunk, Text, Texts, Pipeline, Requested, Flat, Filled, KeptBytes, Monitor,
         Passed, PassedUnseen, Pushed, AllBlocks, Sized, Bridge.RxLine, Bridge.TxRest, Slots;
    WelcomeText();
    ShortChunk(65);
    ShortChunk(66);
    bridge := PowerUp(3, 40, ram);
    bridge.WriteWhileBusy([65]);
    InOrder(bridge);
    ghost var a, b := Text(bridge.mem, bridge.tx.buf.block), Text(bridge.mem, bridge.recvHand.value);
    bridge.LateQueueIsOvertaken([66]);
    FirstTwo(a, b, WELCOME, [65]);
  }

  lemma FirstTwo(a: seq<byte>, b: seq<byte>, x: seq<byte>, y: seq<byte>)
    ensures [] + [a] + [b] == [x] + [y] <==> a == x && b == y
  {
    if [] + [a] + [b] == [x] + [y] {
      assert ([] + [a] + [b])[0] == a && ([] + [a] + [b])[1] == b;
    }
  }

  lemma InOrder(bridge: Bridge)
    requires bridge.Valid() && bridge.txLog.stranded == {}
    ensures Pipeline(bridge.tx, bridge.mem, bridge.TxRest(), bridge.txLog) == bridge.txLog.submitted
  {
    hide Bridge.Core, Pipeline;
    bridge.RunPromises();
  }

  lemma ShortChunk(b: byte)
    ensures Chunk([b], 0, 40) == if b == CR then [b, LF] else [b]
  {
  }
}
