# UART bridge and line relay, modelled in Dafny

Two programs of the repository move bytes through interrupts, callbacks, queues and threads.

**The Nordic UART bridge** (`peripheral_uart_beacon`). `uart_async_adapter.c` turns an interrupt-driven UART into
Zephyr's double-buffered asynchronous API, and `uart_cb` in `main.c` is its only client. The adapter calls the client
from inside its own functions, and the client calls the adapter again from there: RX_RDY may disable reception, which
releases the buffers and ends in a callback that enables it again; TX_DONE and TX_ABORTED start the next transfer.
Received bytes travel in heap blocks to the BLE thread, BLE writes travel in blocks from the same heap to the wire.

**The dual UART relay** (`dual_uart_int`). An interrupt assembles lines byte by byte in a 32-byte buffer and puts them
into a queue of ten; a thread prints them on the other UART.

## How the model is built

- `Bytes`, `BlockHeap`: bytes; blocks, pointers as (block, offset), and who owns each block. The heap is a slab of equal
  blocks: `k_malloc` fails exactly when none is free, and freeing a free block violates a precondition.
- `RxProtocol`: the receive API as a monitor over supplied, ready, released and disabled events, and what acceptance
  means for a whole history.
- `RxSide`, `TxSide`: the two halves of `struct uart_async_adapter_data`, their invariants, and what each step does to them.
- `Chunking`: how a BLE write is cut into blocks.
- `Overtaking`: a line in which some items are passed by the one behind them, and nothing else moves.
- `BridgeSteps`: the bridge seen from outside: its state as a value, the steps that can come, what each does to the
  histories (`Next`), runs as sequences of states (`IsRun`), and what a run adds up to.
- `BridgeLaws`: what steps and runs come to on the variables and histories alone, without the guards and effects the
  steps are defined by: what an interrupt pushes, completes, takes, keeps and reports, and what the timer, the BLE
  thread and `bt_receive_cb`, left alone, achieve.
- `UartBridge`: the class `Bridge` with the adapter's and the client's variables as fields and one method for each C
  function. It is one class because callbacks re-enter; a callback is a method for each case of `uart_cb`. Ghost
  histories record the bytes taken from the hardware (each marked kept or dropped), the bytes handed to BLE, the
  events, the bytes on the wire, the payloads made and completed, and which payloads were stranded.
- `LineTokens`, `LineRelay`: the line grammar with its parser, the relay as a pure function of its steps (`StepsIn`),
  and the class `Relay`.

`Bridge.Valid` is the invariant between steps. A step is one interrupt, one timer callback, one work item, one action of
the BLE thread, the `k_malloc` of a round of `bt_receive_cb`, the rest of the round up to `uart_tx`, the `k_fifo_put`
after a busy `uart_tx`, or an abort. `Bridge.Run` takes any sequence of them and returns the states it went through,
each related to the one before by `Next`.

What the proofs say about the code:

- Reception. An interrupt keeps exactly the first `Room` of the bytes it is given and drops the others. `Room` can be
  computed before the first byte is read: the room in the current buffer and, if a next buffer is prepared or a line
  ends just where the current one is full, all of the spare blocks. What BLE got, what waits for it and what is in the
  current buffer is, over any run, exactly what the interrupts kept, and each payload for BLE fills a buffer or ends
  with a line's end. An interrupt leaves the room it did not use; so a burst is kept up to the room it found, however it
  is cut into interrupts (`BridgeSteps.BurstKept`, which says from which states). Reception never dies: once a receive interrupt or the work item has
  found a free block, the next receive interrupt keeps up to a buffer full (`BridgeSteps.RxNeverDies`). With a timeout
  set, an interrupt reports and queues whole buffers only and leaves the rest to the timer. Ownership of blocks is
  exclusive in every reachable state, allocation failures included.
- From power-up: up to a buffer of bytes reaches BLE, as one payload, exactly if it fills the buffer or ends with CR or
  LF (`LineReachesBle`); a write that the heap has room for appears on the wire behind the greeting, with an LF behind a
  final CR (`WriteReachesWire`); at most ten lines without NUL come out of the relay as they went in, cut to 31 bytes
  (`FewLinesPrinted`).
- Transmission. A payload is *stranded* when a TX_DONE finds the queue empty while that payload is between a busy
  `uart_tx` and its `k_fifo_put`. The payloads go out in the order they were made, except that a stranded one is passed
  by the one made next, and by no other. So the order differs from the order of making exactly if a stranded payload was
  followed by a different one, no payload is more than one place off, and a block waits beside an idle transmitter
  exactly when the last payload made was stranded. `LateQueueFromBoot` is a run from power-up in which the order is lost.
- An abort is followed by a resumed transfer exactly when bytes are left to push (`Bridge.TxAbort`). An abort that comes
  later costs the heap one block (`Bridge.LateAbortLosesBlock`). Runs take aborts to come in time; `main.c` itself
  starts no abort.
- `rx_disable` keeps the invariant exactly if there is a current buffer or no buffer at all, and drops what was received
  but not reported (`Bridge.RxDisable`). Its only caller meets both conditions with everything reported.
- The 16-bit length field suffices exactly for buffers of at most 65535 bytes (`Chunking.LengthFieldSuffices`), so
  `Bridge` takes buffer sizes from 2 to 65535; the default is 40.
- The relay's output is a function of its steps. In it a line end that arrives on an empty line is stored as data, a
  message is dropped exactly when ten are queued (a thread that waits gets it at once), and interrupts with no thread
  step in between act as one.

## Model

| member | source | states |
|---|---|---|
| `RxProtocol.ReleasedInSupplyOrder` | peripheral_uart_beacon/src/uart_async_adapter.c:117-140 | in an accepted history buffers are released at most once and in supply order; the rest are what the driver holds |
| `RxProtocol.ReportsTile` | peripheral_uart_beacon/src/uart_async_adapter.c:75-86 | each report of a buffer starts where the previous ones ended, is not empty and stays inside |
| `RxProtocol.SilentAfterRelease` | peripheral_uart_beacon/src/uart_async_adapter.c:117-140 | a released buffer is neither reported nor released again before it is supplied again |
| `BlockHeap.OnePlace` | peripheral_uart_beacon/src/main.c:138-209 | ownership as a count: each block is free or in exactly one place, once |
| `RxSide.RxRelease` | peripheral_uart_beacon/src/uart_async_adapter.c:117-140 | the current buffer is queued as far as it was reported and the rest of it is dropped; stream, pointers and protocol stay in step |
| `RxSide.RxRead` | peripheral_uart_beacon/src/uart_async_adapter.c:476-489 | reading into the current buffer appends exactly the bytes read to the kept stream |
| `RxSide.RxReport` | peripheral_uart_beacon/src/uart_async_adapter.c:75-87 | a report is a legal event and leaves the client exactly the reported bytes to count |
| `RxSide.ReceivedBytes` | peripheral_uart_beacon/src/uart_async_adapter.c:462-489 | bytes taken with a given room are all taken, and the first of them, up to the room, are kept |
| `RxSide.DiscardedBytes` | peripheral_uart_beacon/src/uart_async_adapter.c:255-266 | dropping the last kept bytes after all shortens the kept stream at its end and changes nothing else |
| `RxSide.RoomAfterRead` | peripheral_uart_beacon/src/uart_async_adapter.c:476-486 | bytes read into the current buffer use up exactly their number of the room |
| `RxSide.RoomAfterSwitch` | peripheral_uart_beacon/src/uart_async_adapter.c:452-459 | a spare block that becomes the current buffer leaves the room as it was |
| `UartBridge.Bridge.RxEnable` | peripheral_uart_beacon/src/uart_async_adapter.c:210-233 | overwrites the receive state even when it returns -EBUSY |
| `UartBridge.Bridge.RxBufRsp` | peripheral_uart_beacon/src/uart_async_adapter.c:235-253 | takes the next buffer, or returns -EBUSY and changes nothing |
| `UartBridge.Bridge.UartCbRxBufReleased` | peripheral_uart_beacon/src/main.c:198-209 | a block with data is queued, an empty one freed |
| `UartBridge.Bridge.UartCbRxBufRequest` | peripheral_uart_beacon/src/main.c:186-196 | a free block becomes the next buffer, if there is one; everything in flight is untouched |
| `UartBridge.Bridge.UartCbRxDisabled` | peripheral_uart_beacon/src/main.c:168-184 | reception restarts with a free block, or the work item is scheduled exactly when there is none |
| `UartBridge.Bridge.SwitchRxBuffer` | peripheral_uart_beacon/src/uart_async_adapter.c:117-140 | the next buffer takes over, the old one goes where its length says; on the way to a new one it must be reported to its last byte |
| `UartBridge.Bridge.RxDisable` | peripheral_uart_beacon/src/uart_async_adapter.c:255-271 | releases both buffers, in order, in at most two rounds, before DISABLED, and reception restarts from the spare blocks; the invariant survives exactly if there is a current buffer or none at all, and unreported bytes are dropped |
| `UartBridge.Bridge.UartCbRxRdy` | peripheral_uart_beacon/src/main.c:151-166 | counts the bytes; a line's end sends the whole filled part of the buffer to the BLE queue and clears disable_req again |
| `UartBridge.Bridge.NotifyRxBuffer` | peripheral_uart_beacon/src/uart_async_adapter.c:67-96 | nothing unreported: no change; otherwise one report of all of it, and exactly when it ends a line the whole filled part is queued; the events are given one by one |
| `UartBridge.Bridge.EverythingQueued` | peripheral_uart_beacon/src/main.c:156-164 | with no current buffer all kept bytes are sent or queued |
| `UartBridge.Bridge.RxTimeout` | peripheral_uart_beacon/src/uart_async_adapter.c:581-586 | afterwards nothing is unreported, or the line was flushed; queue, heap and work item change in the second case alone |
| `UartBridge.Bridge.RenewRxBuffer` | peripheral_uart_beacon/src/uart_async_adapter.c:452-461 | leaves room to read exactly when the adapter was not starved; asks for a next buffer and gets one exactly when a block is free |
| `UartBridge.Bridge.RxReadyRound` | peripheral_uart_beacon/src/uart_async_adapter.c:449-493 | starved: everything there is is dropped and the loop ends; otherwise what is taken is kept, and the room behind it stays what it was |
| `UartBridge.Bridge.OnRxReady` | peripheral_uart_beacon/src/uart_async_adapter.c:440-498 | ends for any FIFO content in any pieces, keeps exactly the first `Room` bytes and drops the rest; the room not used is left; bytes that do not fill the buffer are left to the timer, if there is one, and only full buffers are reported and queued; no buffer at all is left only if no block is free |
| `UartBridge.Bridge.UartWorkHandler` | peripheral_uart_beacon/src/main.c:231-245 | reception restarts, or the work item stays pending exactly when no block is free |
| `UartBridge.Bridge.BleThreadGet` | peripheral_uart_beacon/src/main.c:684-687 | takes the oldest received block |
| `UartBridge.Bridge.BleThreadSend` | peripheral_uart_beacon/src/main.c:689-693 | hands over its payload and frees it |
| `UartBridge.Bridge.Tx` | peripheral_uart_beacon/src/uart_async_adapter.c:142-175 | starts a transfer, is busy, or does nothing for length 0 |
| `UartBridge.Bridge.OnTxReady` | peripheral_uart_beacon/src/uart_async_adapter.c:380-402 | exactly the next bytes that fit reach the wire; no payload moves in the pipeline |
| `UartBridge.Bridge.UartCbTxDone` | peripheral_uart_beacon/src/main.c:121-149 | frees the original block, never an interior pointer, and starts the queue's head |
| `UartBridge.Bridge.OnTxComplete` | peripheral_uart_beacon/src/uart_async_adapter.c:404-438 | a completed payload counts once, its block is freed once, the queue's head is started; no payload moves in the pipeline |
| `UartBridge.Bridge.UartCbTxAborted` | peripheral_uart_beacon/src/main.c:211-224 | resumes at aborted_len if bytes are left, otherwise starts nothing |
| `UartBridge.Bridge.TxAbort` | peripheral_uart_beacon/src/uart_async_adapter.c:177-207 | keeps the invariant, and resumes, exactly when bytes are left to push |
| `UartBridge.Bridge.TransmitThroughAborts` | peripheral_uart_beacon/src/main.c:121-149 | through any partial fills and timely aborts the payload is on the wire once and whole, its block freed once, aborted_len back at 0 |
| `TxSide.TxFinish` | peripheral_uart_beacon/src/uart_async_adapter.c:415-425 | completing a block keeps wire and pipeline |
| `TxSide.TxResume` | peripheral_uart_beacon/src/main.c:211-224 | resuming an aborted block keeps the invariant |
| `TxSide.TxDirect` | peripheral_uart_beacon/src/main.c:526-529 | a block sent at once passes the stranded block that waits, if there is one, and no other |
| `TxSide.TxBehind` | peripheral_uart_beacon/src/main.c:526-529 | a block sent to the end of the line stands behind all payloads made before it |
| `TxSide.WireInOrder` | peripheral_uart_beacon/src/main.c:138-147 | wire, rest in flight and waiting blocks are the payloads in sending order, and the requested texts in order unless a payload was passed by a different one |
| `TxSide.SendingOrder` | peripheral_uart_beacon/src/main.c:138-147 | the sending order is a permutation of the order of making, at most one place off, and the same exactly if no stranded payload was followed by a different one |
| `TxSide.PayloadOrder` | peripheral_uart_beacon/src/main.c:526-529 | a new payload is the last to be sent exactly if no different one waits beside an idle transmitter; otherwise it passes that one |
| `Overtaking.PassedSame` | peripheral_uart_beacon/src/main.c:526-529 | passing shows exactly if some passed item differs from the one that passed it |
| `Overtaking.PassedAll` | peripheral_uart_beacon/src/main.c:526-529 | passing loses and duplicates nothing |
| `Overtaking.PassedPrefix` | peripheral_uart_beacon/src/main.c:526-529 | the order of a front part is settled once its last item cannot be passed any more |
| `TxSide.WelcomeText` | peripheral_uart_beacon/src/main.c:323-333 | the welcome text has 38 bytes and needs no further LF |
| `Chunking.ChunksFit` | peripheral_uart_beacon/src/main.c:505-524 | blocks are non-empty, fit the buffer with the LF, and all but the last are full |
| `Chunking.ChunksPrefix` | peripheral_uart_beacon/src/main.c:497-524 | the first blocks are a prefix of the write without LF; all of them are the write with LF exactly after a final CR |
| `Chunking.ChunksCount` | peripheral_uart_beacon/src/main.c:505-516 | ceil(len / (size - 1)) blocks, and k unfinished ones hold k * (size - 1) bytes |
| `Chunking.LengthFieldSuffices` | peripheral_uart_beacon/src/main.c:67-71 | block lengths never wrap in 16 bits for every write if and only if the buffer has at most 65535 bytes |
| `Chunking.CutGrows` | peripheral_uart_beacon/src/main.c:505-524 | one more block extends what the UART was handed by exactly that block |
| `UartBridge.Bridge.FillBlock` | peripheral_uart_beacon/src/main.c:505-524 | fills the block of the chunk specification; pos and len do not wrap |
| `UartBridge.Bridge.BtReceiveStart` | peripheral_uart_beacon/src/main.c:487-497 | a write begins with nothing of it made |
| `UartBridge.Bridge.BtReceiveAlloc` | peripheral_uart_beacon/src/main.c:497-503 | a block is taken for the next piece, or the callback ends exactly when none is free |
| `UartBridge.Bridge.BtReceiveSend` | peripheral_uart_beacon/src/main.c:505-526 | the block gets the next piece and is sent, or kept in hand when busy; the payload joins the end of the pipeline exactly if nothing different was waiting beside an idle transmitter |
| `UartBridge.Bridge.BtReceiveRound` | peripheral_uart_beacon/src/main.c:498-526 | both halves of a round: makes the next block and sends it, or keeps it in hand when busy, or ends the callback exactly when no block is free |
| `UartBridge.Bridge.BtReceiveQueue` | peripheral_uart_beacon/src/main.c:527-529 | the block in hand joins the end of the queue |
| `UartBridge.Bridge.BtReceiveCb` | peripheral_uart_beacon/src/main.c:497-530 | undisturbed, makes all blocks of the write, or as many as the heap has, in order |
| `UartBridge.Bridge.constructor` | peripheral_uart_beacon/src/uart_async_adapter.h:104-113 | an untouched heap and zeroed state |
| `UartBridge.Bridge.UartInit` | peripheral_uart_beacon/src/main.c:274-347 | establishes the invariant exactly when two blocks exist and the text fits, otherwise gives back what it took |
| `UartBridge.Bridge.UartIrqHandler` | peripheral_uart_beacon/src/uart_async_adapter.c:515-532 | any interrupt pushes exactly what fits, completes exactly a block whose last byte is out, takes all there is to receive when reception is on, prepares a free block when there is no buffer, and otherwise leaves the receive side alone; `Next` gives the rest |
| `UartBridge.Bridge.Run` | peripheral_uart_beacon/src/main.c:111-245 | every run goes through states related by `Next`; BLE, its queue and the current buffer hold what the interrupts had room for, in payloads that fill a buffer or end a line; the payloads of the texts that arrived are sent in order but for the stranded ones; no block waits beside an idle transmitter but a stranded one |
| `BridgeSteps.RunHistory` | peripheral_uart_beacon/src/uart_async_adapter.c:515-532 | over a run the bytes taken, kept and dropped, the texts that arrived and the payloads stranded add up from its steps |
| `BridgeSteps.KeptWhole` | peripheral_uart_beacon/src/uart_async_adapter.c:462-474 | a run drops nothing exactly if each interrupt has room for all it is given; `BurstKept` says what room a burst finds |
| `BridgeSteps.BurstKept` | peripheral_uart_beacon/src/uart_async_adapter.c:440-498 | however a burst of receive interrupts is cut, exactly its first bytes are kept, as many as there was room for when it began, given a next buffer or no free block at that point and a timeout other than 0 |
| `BridgeSteps.RxNeverDies` | peripheral_uart_beacon/src/main.c:168-245 | once a receive interrupt or the work item has found no buffer but a free block, the next receive interrupt keeps its bytes up to a buffer full, whatever came in between |
| `BridgeLaws.IrqTransmits` | peripheral_uart_beacon/src/uart_async_adapter.c:524-529 | an interrupt pushes exactly the next bytes that fit, and a block whose last byte is out is done when completion is signalled, after which the queue's head is next |
| `BridgeLaws.IrqReceives` | peripheral_uart_beacon/src/uart_async_adapter.c:530-532 | with reception on all bytes are taken; how many are kept, as a formula of the buffer's room, the next buffer and the free blocks |
| `BridgeLaws.IrqReports` | peripheral_uart_beacon/src/uart_async_adapter.c:486-496 | with a timeout set only full buffers are reported and queued inside an interrupt, and fewer bytes cause no event at all |
| `BridgeLaws.TimerReports` | peripheral_uart_beacon/src/uart_async_adapter.c:581-586 | the timer reports what is unreported; after CR or LF the filled part goes to BLE, otherwise it stays |
| `BridgeLaws.WorkRestarts` | peripheral_uart_beacon/src/main.c:231-245 | a pending work item restarts reception exactly when a block is free |
| `BridgeLaws.AbortResumes` | peripheral_uart_beacon/src/main.c:211-224 | an abort with bytes left resumes the transfer at the next byte |
| `BridgeLaws.BurstBytes` | peripheral_uart_beacon/src/uart_async_adapter.c:440-498 | however a burst is cut, its first bytes are kept, as many as fit the current buffer, the next one and the free blocks |
| `BridgeLaws.BleDelivers` | peripheral_uart_beacon/src/main.c:684-693 | the BLE thread left alone delivers every queued payload, in order, in one round more than there are |
| `BridgeLaws.WriteIsSubmitted` | peripheral_uart_beacon/src/main.c:487-530 | a write that the heap has room for is made into payloads that spell it out, with an LF behind a final CR |
| `UartBridge.Session` | peripheral_uart_beacon/src/main.c:274-347 | from power-up, with the greeting: what BLE got and has coming is what the interrupts had room for, and greeting and writes go out in order but for the stranded payloads |
| `UartBridge.LineReachesBle` | peripheral_uart_beacon/src/main.c:151-209 | from power-up, up to a buffer of bytes, the timer and the BLE thread: one payload exactly if they fill a buffer or end with CR or LF |
| `UartBridge.WriteReachesWire` | peripheral_uart_beacon/src/main.c:320-339 | from power-up, a write and transmit interrupts: the wire shows the greeting and the write, with an LF behind a final CR |
| `UartBridge.Bridge.OneHolder` | peripheral_uart_beacon/src/main.c:138-209 | in every reachable state each block has exactly one holder, a block being filled included |
| `UartBridge.Bridge.BufferHistory` | peripheral_uart_beacon/src/uart_async_adapter.c:67-140 | the bridge's whole event history releases in supply order, tiles each buffer, and does not mention a released buffer before it is supplied again |
| `UartBridge.Bridge.WireText` | peripheral_uart_beacon/src/main.c:138-147 | wire, rest in flight and waiting blocks spell the payloads in sending order, and the requested texts in order unless a payload was passed by a different one |
| `UartBridge.Bridge.DrainTx` | peripheral_uart_beacon/src/uart_async_adapter.c:380-438 | interrupts alone empty transmitter and queue, each but the first pushing a byte; the wire then holds the whole pipeline |
| `UartBridge.Bridge.LateQueueIsOvertaken` | peripheral_uart_beacon/src/main.c:138-147 | how the order is lost: the stranded payload ends up behind the next one, which is out of order exactly if the two differ |
| `UartBridge.LateQueueFromBoot` | peripheral_uart_beacon/src/main.c:526-529 | a run from power-up in which "A" and then "B" are written and "B" is sent first |
| `UartBridge.Bridge.LateAbortLosesBlock` | peripheral_uart_beacon/src/main.c:211-224 | after an abort behind the last byte, the next block sent ends up with no holder and not free |
| `LineTokens.ParseUnique` | dual_uart_int/src/main.c:43-60 | a stream has at most one parse into tokens and an unfinished rest |
| `LineTokens.ParseExists` | dual_uart_int/src/main.c:43-60 | the automaton finds a parse of every stream |
| `LineTokens.ParseInBatches` | dual_uart_int/src/main.c:43-60 | fed batch by batch, each from where the one before stopped, the automaton ends with a result exactly if that is the parse of all the batches together |
| `LineTokens.CStringOfPrefix` | dual_uart_int/src/main.c:91-98 | bytes behind the NUL of a message do not matter to its reader |
| `LineRelay.Relay.FinishLine` | dual_uart_int/src/main.c:47-55 | a finished line is handed on as its clipped text, dropped exactly when ten are queued |
| `LineRelay.Relay.StoreByte` | dual_uart_int/src/main.c:56-59 | any other byte extends the unfinished line, kept only while it fits |
| `LineRelay.Relay.Uart0Byte` | dual_uart_int/src/main.c:43-60 | one byte, one step of the parse; a finished token is kept exactly when fewer than ten are queued |
| `LineRelay.Relay.Uart0Cb` | dual_uart_int/src/main.c:35-61 | a batch is received whole, and each of its finished lines is kept exactly when fewer than ten are queued at that point |
| `LineRelay.Relay.MsgqPut` | dual_uart_int/src/main.c:51-52 | a waiting thread gets the message at once; a full queue refuses it |
| `LineRelay.Relay.Strlen` | dual_uart_int/src/main.c:93-93 | the first NUL |
| `LineRelay.Relay.PrintUart` | dual_uart_int/src/main.c:91-98 | prints the C string |
| `LineRelay.Relay.ThreadGet` | dual_uart_int/src/main.c:122-122 | the oldest message is copied out; with none the thread waits |
| `LineRelay.Relay.ThreadPrint` | dual_uart_int/src/main.c:123-125 | prints prefix, text up to its first NUL, and a line end |
| `LineRelay.Relay.Run` | dual_uart_int/src/main.c:35-127 | over any interleaving the relay does what its steps say one by one: the stream is what the interrupts delivered, and printed, held and queued messages are the accepted tokens of its unique parse, in order |
| `LineRelay.RunStream` | dual_uart_int/src/main.c:43-45 | the stream of a run is what its interrupts delivered |
| `LineRelay.InterruptsMerge` | dual_uart_int/src/main.c:43-60 | two interrupts with no thread step in between do to the whole run what one with all their bytes does |
| `LineRelay.ThreadPrints` | dual_uart_int/src/main.c:117-127 | the thread left alone prints every pending message in one round more than there are |
| `LineRelay.FewLinesKept` | dual_uart_int/src/main.c:47-55 | in a run that receives at most ten lines no message is dropped |
| `LineRelay.PrintsAll` | dual_uart_int/src/main.c:117-127 | after any run and twelve rounds of the thread all accepted messages are printed |
| `LineRelay.FewLinesPrinted` | dual_uart_int/src/main.c:43-127 | at most ten lines without NUL are printed as "From Uart0: ", the first 31 bytes, CR, LF |
| `LineRelay.OneLinePrinted` | dual_uart_int/src/main.c:43-127 | that for one line, given by its bytes, which may begin with any byte |
| `LineRelay.Session` | dual_uart_int/src/main.c:117-127 | from start-up the bytes printed with "From Uart0: " are a function of the run's steps |
| `LineRelay.Relay.PrintedText` | dual_uart_int/src/main.c:117-127 | without NULs each printed line is prefix, token cut to 31 bytes, line end |

## Left out

- Blocks are values in a sequence field and pointers are (block, offset) pairs; writing outside a block is a failed proof here, not a memory effect.
- Time: the RX timer may fire at any moment, whether armed or not; the 50 ms delay of the work item is not modelled; TX timeouts are never armed by main.c, so an abort is a step of its own.
- Spin locks and preemption inside one interrupt, callback, work item or thread step: each is taken whole. `bt_receive_cb` is interruptible after its k_malloc and between uart_tx and k_fifo_put; the work item runs while reception is off, and the BLE thread only frees.
- `k_malloc` fails exactly when no block is free: fragmentation and other users of the heap are not modelled.
- `on_error` and UART_RX_STOPPED: it passes the target device to rx_disable, and that driver is not part of this model.
- Failing driver calls: a negative result of uart_fifo_read or uart_fifo_fill counts as no byte moved, as the code treats it.
- A receive interrupt comes with the bytes its FIFO hands over before uart_fifo_read first returns none; later ones belong to a later interrupt.
- The error exits of `uart_init` other than missing blocks and a text that does not fit, the truncated text it leaves in a block it frees, USB, DTR and line control.
- `uart1_cb` writes its terminator into the other channel's buffer; only the uart0 channel is modelled, on its own.
- bt_nus_send: its payload counts as handed over whether or not a peer receives it.
- Pass-through driver functions, logging, LEDs, buttons, advertising and pairing; the other samples, which read sensors, clocks and positions, drive timers, or advertise and connect through library calls.
