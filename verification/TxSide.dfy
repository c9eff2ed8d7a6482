/** The transmit half: the block in flight, the client's record of an aborted
  block, the blocks waiting behind it, and what has reached the wire. */
module TxSide {
  import opened Bytes
  import opened BlockHeap
  import opened Chunking
  import opened Overtaking

  /** The `tx` part of struct uart_async_adapter_data. */
  datatype TxHalf = TxHalf(buf: Pointer, currBuf: Pointer, sizeLeft: nat, enabled: bool)

  /** A text to send, the welcome text or a BLE write, and how many of its bytes have been put into blocks. */
  datatype Request = Request(data: seq<byte>, taken: nat)

  /** What has happened: bytes accepted by the hardware, payloads whose TX_DONE
    was reported, payloads made, texts to send, and which payloads (counted from
    0) were stranded: in hand, after a busy uart_tx and before k_fifo_put, when a
    TX_DONE met an empty queue. */
  datatype TxLog = TxLog(wire: seq<byte>, done: seq<seq<byte>>, submitted: seq<seq<byte>>,
                         requests: seq<Request>, stranded: set<int>)

  /** Everything that should have been put on the wire so far. */
  function Requested(rs: seq<Request>): seq<byte> {
    if rs == [] then []
    else var r := rs[|rs| - 1];
         Requested(rs[..|rs| - 1]) + (if r.taken <= |r.data| then Cut(r.data, r.taken) else [])
  }

  lemma RequestedSnoc(rs: seq<Request>, r: Request)
    requires r.taken <= |r.data|
    ensures Requested(rs + [r]) == Requested(rs) + Cut(r.data, r.taken)
  {
    assert (rs + [r])[..|rs|] == rs;
  }

  /** The part of the block in flight that is already on the wire. */
  function Pushed(tx: TxHalf, mem: seq<Block>): seq<byte> {
    if tx.buf.At? && tx.currBuf.At? && tx.currBuf.off <= |Text(mem, tx.buf.block)|
    then Text(mem, tx.buf.block)[..tx.currBuf.off] else []
  }

  /** How many more bytes go into a FIFO that takes `room`; zero or less is an error of uart_fifo_fill. */
  function Pushable(tx: TxHalf, room: int): nat {
    if room <= 0 then 0 else if room <= tx.sizeLeft then room else tx.sizeLeft
  }

  /** Blocks on their way to the wire, in sending order; `rest` is the queue and a block about to be queued. */
  function TxLine(tx: TxHalf, rest: seq<nat>): seq<nat> {
    Ref(tx.buf) + rest
  }

  /** Payloads sent, in flight, queued and about to be queued. */
  function Pipeline(tx: TxHalf, mem: seq<Block>, rest: seq<nat>, log: TxLog): seq<seq<byte>> {
    log.done + Texts(mem, TxLine(tx, rest))
  }

  // -------------------------------------------------------------- invariant

  /** While an aborted block is resumed, `tx.buf` points just past what was sent before the abort. */
  predicate TxShape(tx: TxHalf, abortedBuf: Pointer, abortedLen: nat, mem: seq<Block>) {
    && (tx.buf.Null? ==> tx.currBuf.Null? && tx.sizeLeft == 0 && !tx.enabled && abortedBuf.Null? && abortedLen == 0)
    && (tx.buf.At? ==>
          && tx.enabled && tx.buf.block < |mem|
          && tx.buf.off == abortedLen
          && (abortedBuf.Null? ==> abortedLen == 0)
          && (abortedBuf.At? ==> abortedBuf == At(tx.buf.block, 0))
          && tx.currBuf.At? && tx.currBuf.block == tx.buf.block
          && tx.buf.off <= tx.currBuf.off
          && tx.buf.off < mem[tx.buf.block].len <= |mem[tx.buf.block].data|
          && tx.currBuf.off + tx.sizeLeft == mem[tx.buf.block].len)
  }

  predicate TxStream(tx: TxHalf, mem: seq<Block>, rest: seq<nat>, log: TxLog) {
    && log.wire == Flat(log.done) + Pushed(tx, mem)
    && Pipeline(tx, mem, rest, log) == Passed(log.submitted, log.stranded)
    && Flat(log.submitted) == Requested(log.requests)
  }

  /** The transmitter is idle beside a waiting block exactly when the last payload
    made was stranded, and that block is then the only one. */
  predicate TxPrompt(tx: TxHalf, rest: seq<nat>, log: TxLog) {
    && Strands(log)
    && (|log.submitted| - 1 in log.stranded <==> tx.buf.Null? && rest != [])
    && (tx.buf.Null? ==> |rest| <= 1)
  }

  predicate Strands(log: TxLog) {
    && Apart(log.stranded)
    && forall i :: i in log.stranded ==> 0 <= i < |log.submitted|
  }

  /** Every payload that was passed equals the one that passed it. */
  predicate PassedUnseen(log: TxLog) {
    forall i :: i in log.stranded && 0 <= i < |log.submitted| - 1 ==> log.submitted[i] == log.submitted[i + 1]
  }

  /** The payloads are sent in the order they were made exactly if none was
    stranded before a different one was made, and never more than one place off. */
  lemma SendingOrder(tx: TxHalf, mem: seq<Block>, rest: seq<nat>, log: TxLog)
    requires TxStream(tx, mem, rest, log) && Strands(log)
    ensures multiset(Pipeline(tx, mem, rest, log)) == multiset(log.submitted)
    ensures |Pipeline(tx, mem, rest, log)| == |log.submitted|
    ensures Pipeline(tx, mem, rest, log) == log.submitted <==> PassedUnseen(log)
    ensures forall k :: 0 <= k < |log.submitted| ==>
      Pipeline(tx, mem, rest, log)[k] == log.submitted[ItemAt(log.stranded, |log.submitted|, k)]
  {
    hide Flat, Requested, Texts, Text, TxLine;
    PassedAll(log.submitted, log.stranded);
    PassedSame(log.submitted, log.stranded);
  }

  predicate TxInv(tx: TxHalf, abortedBuf: Pointer, abortedLen: nat, mem: seq<Block>, rest: seq<nat>, log: TxLog) {
    && TxShape(tx, abortedBuf, abortedLen, mem)
    && Loaded(mem, TxLine(tx, rest))
    && TxStream(tx, mem, rest, log)
    && TxPrompt(tx, rest, log)
  }

  // --------------------------------------------- what each step does to it

  /** A block that is not on its way to the wire is written. */
  lemma TxFrame(tx: TxHalf, abortedBuf: Pointer, abortedLen: nat, mem: seq<Block>, mem': seq<Block>, b: nat,
                rest: seq<nat>, log: TxLog)
    requires TxInv(tx, abortedBuf, abortedLen, mem, rest, log)
    requires OnlyBlock(mem, mem', b) && b !in TxLine(tx, rest)
    ensures TxInv(tx, abortedBuf, abortedLen, mem', rest, log)
  {
    var line := TxLine(tx, rest);
    assert tx.buf.At? ==> line[0] == tx.buf.block;
    TextsFrame(mem, mem', b, line);
  }

  /** The hardware takes the next `n` bytes. */
  lemma TxPush(tx: TxHalf, abortedBuf: Pointer, abortedLen: nat, mem: seq<Block>, rest: seq<nat>, log: TxLog, n: nat)
    requires TxInv(tx, abortedBuf, abortedLen, mem, rest, log) && tx.buf.At? && n <= tx.sizeLeft
    ensures var b, c := tx.buf.block, tx.currBuf.off;
            TxInv(tx.(currBuf := At(b, c + n), sizeLeft := tx.sizeLeft - n), abortedBuf, abortedLen, mem, rest,
                  log.(wire := log.wire + mem[b].data[c..c + n]))
  {
    PushedGrows(tx, mem, n);
    hide Flat, Requested, Text, Texts, Loaded, Pushed;
    var d, p := Flat(log.done), Pushed(tx, mem);
    var s := mem[tx.buf.block].data[tx.currBuf.off..tx.currBuf.off + n];
    assert (d + p) + s == d + (p + s);
  }

  lemma PushedGrows(tx: TxHalf, mem: seq<Block>, n: nat)
    requires tx.buf.At? && tx.currBuf.At? && tx.buf.block < |mem|
    requires tx.currBuf.off + n <= mem[tx.buf.block].len <= |mem[tx.buf.block].data| && n <= tx.sizeLeft
    ensures var b, c := tx.buf.block, tx.currBuf.off;
      Pushed(tx.(currBuf := At(b, c + n), sizeLeft := tx.sizeLeft - n), mem) == Pushed(tx, mem) + mem[b].data[c..c + n]
  {
  }

  /** The block in flight is complete: it leaves the pipeline's line and joins `done`. */
  lemma TxFinish(tx: TxHalf, abortedBuf: Pointer, abortedLen: nat, mem: seq<Block>, rest: seq<nat>, log: TxLog)
    requires TxInv(tx, abortedBuf, abortedLen, mem, rest, log) && tx.buf.At? && tx.sizeLeft == 0
    ensures var log' := log.(done := log.done + [Text(mem, tx.buf.block)]);
            && TxStream(TxHalf(Null, Null, 0, false), mem, rest, log')
            && log'.done + Texts(mem, rest) == Pipeline(tx, mem, rest, log)
            && Loaded(mem, rest)
  {
    RestLoaded(mem, tx.buf.block, rest);
    DoneInOrder(tx, mem, rest, log);
    assert Pushed(tx, mem) == Text(mem, tx.buf.block);
    hide Flat, Requested, Text, Pushed, Texts, Loaded;
    FlatSnoc(log.done, Text(mem, tx.buf.block));
    IdlePushed(mem);
    IdleLine(rest);
  }

  lemma RestLoaded(mem: seq<Block>, b: nat, rest: seq<nat>)
    requires Loaded(mem, [b] + rest)
    ensures Loaded(mem, rest)
  {
    assert forall i :: 0 <= i < |rest| ==> rest[i] == ([b] + rest)[i + 1];
  }

  lemma DoneInOrder(tx: TxHalf, mem: seq<Block>, rest: seq<nat>, log: TxLog)
    requires tx.buf.At?
    ensures log.done + [Text(mem, tx.buf.block)] + Texts(mem, rest) == Pipeline(tx, mem, rest, log)
  {
    hide Text;
    LineOfOne(mem, tx.buf.block, rest);
  }

  lemma IdleLine(rest: seq<nat>)
    ensures TxLine(TxHalf(Null, Null, 0, false), rest) == rest
  {
  }

  lemma IdlePushed(mem: seq<Block>)
    ensures Pushed(TxHalf(Null, Null, 0, false), mem) == []
  {
  }

  lemma LineOfOne(mem: seq<Block>, b: nat, queue: seq<nat>)
    ensures Texts(mem, [b] + queue) == [Text(mem, b)] + Texts(mem, queue)
  {
  }

  /** The transmitter once the block in flight is complete. */
  function NextTx(mem: seq<Block>, fifo: seq<nat>): TxHalf
    requires Loaded(mem, fifo)
  {
    if fifo == [] then TxHalf(Null, Null, 0, false)
    else TxHalf(At(fifo[0], 0), At(fifo[0], 0), mem[fifo[0]].len, true)
  }

  function NextFifo(fifo: seq<nat>): seq<nat> {
    if fifo == [] then [] else fifo[1..]
  }

  lemma NextLine(mem: seq<Block>, fifo: seq<nat>, hand: seq<nat>)
    requires Loaded(mem, fifo + hand)
    ensures Loaded(mem, fifo)
    ensures TxLine(NextTx(mem, fifo), NextFifo(fifo) + hand) == fifo + hand
  {
    assert forall i :: 0 <= i < |fifo| ==> fifo[i] == (fifo + hand)[i];
    if fifo != [] {
      assert fifo + hand == [fifo[0]] + (fifo[1..] + hand);
    }
  }

  /** TX_DONE strands the last payload made if it meets an empty queue while that payload is in hand. */
  function Stranded(log: TxLog, fifo: seq<nat>, hand: seq<nat>): set<int> {
    if fifo == [] && hand != [] then log.stranded + {|log.submitted| - 1} else log.stranded
  }

  /** The payload in hand was made while a block was in flight, so it passes none. */
  predicate HandInLine(hand: seq<nat>, log: TxLog) {
    hand != [] ==> |hand| == 1 && log.submitted != [] && |log.submitted| - 2 !in log.stranded
  }

  /** After a completed block the transmitter goes idle with an empty queue, or
    starts the head of the queue. */
  lemma TxNext(mem: seq<Block>, fifo: seq<nat>, hand: seq<nat>, log: TxLog)
    requires TxStream(TxHalf(Null, Null, 0, false), mem, fifo + hand, log) && Loaded(mem, fifo + hand)
    requires Strands(log) && |log.submitted| - 1 !in log.stranded && HandInLine(hand, log)
    requires forall b :: 0 <= b < |mem| ==> mem[b].len <= |mem[b].data|
    ensures Loaded(mem, fifo)
    ensures TxInv(NextTx(mem, fifo), Null, 0, mem, NextFifo(fifo) + hand, log.(stranded := Stranded(log, fifo, hand)))
  {
    hide Flat, Texts, Requested, Passed;
    NextLine(mem, fifo, hand);
    assert TxLine(TxHalf(Null, Null, 0, false), fifo + hand) == fifo + hand;
    assert Pushed(NextTx(mem, fifo), mem) == [] == Pushed(TxHalf(Null, Null, 0, false), mem);
    assert fifo == [] ==> NextFifo(fifo) + hand == hand;
    PassedLast(log.submitted, log.stranded);
  }

  /** The rest of an aborted block is started. */
  lemma TxResume(tx: TxHalf, abortedBuf: Pointer, abortedLen: nat, mem: seq<Block>, rest: seq<nat>, log: TxLog)
    requires TxInv(tx, abortedBuf, abortedLen, mem, rest, log) && tx.buf.At? && tx.sizeLeft > 0
    ensures var b, c := tx.buf.block, tx.currBuf.off;
            TxInv(TxHalf(At(b, c), At(b, c), tx.sizeLeft, true), At(b, 0), c, mem, rest, log)
  {
    var b, c := tx.buf.block, tx.currBuf.off;
    assert TxLine(TxHalf(At(b, c), At(b, c), tx.sizeLeft, true), rest) == TxLine(tx, rest);
  }

  predicate LastRequest(log: TxLog, r: Request) {
    log.requests != [] && log.requests[|log.requests| - 1] == r
  }

  /** The locals of bt_receive_cb, while it runs, agree with the last request. */
  predicate Writing(active: bool, data: seq<byte>, pos: nat, hand: Option<nat>, log: TxLog) {
    && pos <= |data| <= 0xffff
    && (hand.Some? ==> active)
    && HandInLine(Opt(hand), log)
    && (active ==> LastRequest(log, Request(data, pos)))
  }

  /** The log once one more block of the current write has been made. */
  function Submit(log: TxLog, r: Request, size: nat): TxLog
    requires log.requests != [] && 2 <= size && r.taken < |r.data|
  {
    log.(submitted := log.submitted + [Chunk(r.data, r.taken, size)],
         requests := log.requests[..|log.requests| - 1]
                     + [Request(r.data, r.taken + Take(|r.data|, r.taken, size))])
  }

  lemma SubmitRequested(log: TxLog, r: Request, size: nat)
    requires LastRequest(log, r) && 2 <= size && r.taken < |r.data|
    requires Flat(log.submitted) == Requested(log.requests)
    ensures Flat(Submit(log, r, size).submitted) == Requested(Submit(log, r, size).requests)
    ensures LastRequest(Submit(log, r, size), Request(r.data, r.taken + Take(|r.data|, r.taken, size)))
  {
    hide Chunk, Requested, Flat;
    FlatSnoc(log.submitted, Chunk(r.data, r.taken, size));
    var init := log.requests[..|log.requests| - 1];
    assert log.requests == init + [r];
    RequestGrows(init, r, size);
  }

  lemma RequestGrows(init: seq<Request>, r: Request, size: nat)
    requires 2 <= size && r.taken < |r.data|
    ensures Requested(init + [Request(r.data, r.taken + Take(|r.data|, r.taken, size))])
         == Requested(init + [r]) + Chunk(r.data, r.taken, size)
  {
    hide Requested, Cut, Chunk;
    RequestedSnoc(init, r);
    RequestedSnoc(init, Request(r.data, r.taken + Take(|r.data|, r.taken, size)));
    CutGrows(r.data, r.taken, size);
    assert forall a: seq<byte>, b: seq<byte>, c: seq<byte> :: (a + b) + c == a + (b + c);
  }

  /** The transmitter is idle and the new block is sent at once: a stranded block
    that waits is passed, and no other. */
  lemma TxDirect(mem: seq<Block>, b: nat, queue: seq<nat>, log: TxLog, r: Request, size: nat)
    requires TxStream(TxHalf(Null, Null, 0, false), mem, queue, log) && LastRequest(log, r)
    requires TxPrompt(TxHalf(Null, Null, 0, false), queue, log)
    requires 2 <= size && r.taken < |r.data|
    requires b < |mem| && Text(mem, b) == Chunk(r.data, r.taken, size)
    ensures TxStream(TxHalf(At(b, 0), At(b, 0), mem[b].len, true), mem, queue, Submit(log, r, size))
  {
    hide Chunk, Requested, Flat, Text, Passed;
    var idle, busy := TxHalf(Null, Null, 0, false), TxHalf(At(b, 0), At(b, 0), mem[b].len, true);
    SubmitRequested(log, r, size);
    assert TxLine(idle, queue) == queue;
    LineOfOne(mem, b, queue);
    if queue == [] {
      PassedBehind(log.submitted, log.stranded, Text(mem, b));
    } else {
      ApartBefore(log.stranded, |log.submitted| - 1);
      PassedByNew(log.submitted, log.stranded, Text(mem, b));
      assert Texts(mem, queue) == [Text(mem, queue[0])];
    }
  }

  /** The transmitter is busy and the new block goes to the end of the line. */
  lemma TxBehind(tx: TxHalf, mem: seq<Block>, b: nat, queue: seq<nat>, log: TxLog, r: Request, size: nat)
    requires TxStream(tx, mem, queue, log) && LastRequest(log, r)
    requires |log.submitted| - 1 !in log.stranded
    requires 2 <= size && r.taken < |r.data|
    requires Text(mem, b) == Chunk(r.data, r.taken, size)
    ensures TxStream(tx, mem, queue + [b], Submit(log, r, size))
  {
    hide Flat, Requested, Text, Chunk;
    SubmitRequested(log, r, size);
    assert TxLine(tx, queue + [b]) == TxLine(tx, queue) + [b];
    assert Texts(mem, TxLine(tx, queue) + [b]) == Texts(mem, TxLine(tx, queue)) + [Text(mem, b)];
    assert Pipeline(tx, mem, queue + [b], Submit(log, r, size)) == Pipeline(tx, mem, queue, log) + [Text(mem, b)];
    PassedBehind(log.submitted, log.stranded, Text(mem, b));
  }

  lemma TxSubmitDirect(mem: seq<Block>, b: nat, queue: seq<nat>, log: TxLog, r: Request, size: nat)
    requires TxInv(TxHalf(Null, Null, 0, false), Null, 0, mem, queue, log) && LastRequest(log, r)
    requires 2 <= size && r.taken < |r.data|
    requires b < |mem| && mem[b].len <= |mem[b].data| && Text(mem, b) == Chunk(r.data, r.taken, size)
    ensures 0 < mem[b].len
    ensures TxInv(TxHalf(At(b, 0), At(b, 0), mem[b].len, true), Null, 0, mem, queue, Submit(log, r, size))
  {
    hide TxStream, Requested, Text, Apart;
    TextLength(mem, b);
    assert TxLine(TxHalf(Null, Null, 0, false), queue) == queue;
    TxDirect(mem, b, queue, log, r, size);
  }

  lemma TxSubmitBehind(tx: TxHalf, abortedBuf: Pointer, abortedLen: nat, mem: seq<Block>, b: nat, queue: seq<nat>,
                       log: TxLog, r: Request, size: nat)
    requires TxInv(tx, abortedBuf, abortedLen, mem, queue, log) && LastRequest(log, r) && tx.buf.At?
    requires 2 <= size && r.taken < |r.data|
    requires b < |mem| && mem[b].len <= |mem[b].data| && Text(mem, b) == Chunk(r.data, r.taken, size)
    ensures 0 < mem[b].len
    ensures TxInv(tx, abortedBuf, abortedLen, mem, queue + [b], Submit(log, r, size))
  {
    hide TxStream, Requested;
    assert |Text(mem, b)| == mem[b].len;
    assert TxLine(tx, queue + [b]) == TxLine(tx, queue) + [b];
    TxBehind(tx, mem, b, queue, log, r, size);
  }

  /** One more payload was made: it is the last to be sent unless it passes a
    waiting payload that differs from it. */
  lemma PayloadOrder(tx: TxHalf, mem: seq<Block>, rest: seq<nat>, log: TxLog,
                     tx': TxHalf, mem': seq<Block>, rest': seq<nat>, log': TxLog, payload: seq<byte>)
    requires TxStream(tx, mem, rest, log) && TxPrompt(tx, rest, log) && TxStream(tx', mem', rest', log')
    requires log'.submitted == log.submitted + [payload] && log'.stranded == log.stranded
    ensures Pipeline(tx', mem', rest', log') == Pipeline(tx, mem, rest, log) + [payload]
       <==> tx.buf.At? || rest == [] || Text(mem, rest[0]) == payload
    ensures tx.buf.Null? && rest != [] ==>
      && |rest| == 1 && Pipeline(tx, mem, rest, log) == log.done + [Text(mem, rest[0])]
      && Pipeline(tx', mem', rest', log') == log.done + [payload] + [Text(mem, rest[0])]
  {
    hide Flat, Requested, Text, Passed, Pushed;
    if tx.buf.At? || rest == [] {
      PassedBehind(log.submitted, log.stranded, payload);
    } else {
      var y, n := Text(mem, rest[0]), |log.done|;
      assert Texts(mem, TxLine(tx, rest)) == [y];
      ApartBefore(log.stranded, |log.submitted| - 1);
      PassedByNew(log.submitted, log.stranded, payload);
      assert (log.done + [payload] + [y])[n] == payload && (log.done + [y] + [payload])[n] == y;
    }
  }

  /** A new write begins; nothing of it is made yet. */
  lemma TxRequest(tx: TxHalf, abortedBuf: Pointer, abortedLen: nat, mem: seq<Block>, rest: seq<nat>, log: TxLog,
                  data: seq<byte>)
    requires TxInv(tx, abortedBuf, abortedLen, mem, rest, log)
    ensures TxInv(tx, abortedBuf, abortedLen, mem, rest, log.(requests := log.requests + [Request(data, 0)]))
  {
    hide Requested, Flat, Texts;
    RequestedSnoc(log.requests, Request(data, 0));
    assert Cut(data, 0) == [];
  }

  /** The text uart_init sends first. */
  const WELCOME: seq<byte> := Ascii("Starting Nordic UART service example\r\n")

  /** It needs a payload of 39 bytes, its NUL included, and gets no further LF. */
  lemma WelcomeText()
    ensures |WELCOME| == 38 && WELCOME[36] == 13 && WELCOME[37] == 10 && WithLf(WELCOME) == WELCOME
    ensures WELCOME == Ascii("Starting Nordic UART service example\r\n")
  {
  }

  /** The first block, holding a text that does not end in CR, has been started. */
  lemma TxFirst(mem: seq<Block>, b: nat, text: seq<byte>)
    requires b < |mem| && mem[b].len <= |mem[b].data| && Text(mem, b) == text
    requires text != [] && text[|text| - 1] != CR
    ensures TxInv(TxHalf(At(b, 0), At(b, 0), mem[b].len, true), Null, 0, mem, [],
                  TxLog([], [], [text], [Request(text, |text|)], {}))
  {
    hide Requested, Flat, Passed, WithLf;
    var tx, log := TxHalf(At(b, 0), At(b, 0), mem[b].len, true), TxLog([], [], [text], [Request(text, |text|)], {});
    TextLength(mem, b);
    FirstTexts(text);
    assert TxLine(tx, []) == [b];
    assert Texts(mem, [b]) == [text];
    assert Pipeline(tx, mem, [], log) == [text];
    FlatOne(text);
  }

  lemma FirstTexts(text: seq<byte>)
    requires text != [] && text[|text| - 1] != CR
    ensures Requested([Request(text, |text|)]) == text
    ensures Flat([]) == [] && Passed([text], {}) == [text]
  {
    assert [Request(text, |text|)][..0] == [];
    assert WithLf(text) == text;
  }

  /** The wire, the rest of the block in flight and the waiting blocks together
    are the payloads in sending order, and the requested texts in their own
    order unless a payload was passed by a different one. */
  lemma WireInOrder(tx: TxHalf, abortedBuf: Pointer, abortedLen: nat, mem: seq<Block>, rest: seq<nat>, log: TxLog)
    requires TxInv(tx, abortedBuf, abortedLen, mem, rest, log)
    ensures tx.buf.At? ==> tx.currBuf.off <= |Text(mem, tx.buf.block)|
    ensures var remainder := if tx.buf.At? then Text(mem, tx.buf.block)[tx.currBuf.off..] else [];
      && log.wire + remainder + Flat(Texts(mem, rest)) == Flat(Passed(log.submitted, log.stranded))
      && (PassedUnseen(log) ==> log.wire + remainder + Flat(Texts(mem, rest)) == Requested(log.requests))
  {
    hide Flat, Requested, Loaded, Text, Texts, Passed;
    PassedSame(log.submitted, log.stranded);
    FlatConcat(log.done, Texts(mem, TxLine(tx, rest)));
    LineText(tx, mem, rest);
    if tx.buf.At? {
      var t, c := Text(mem, tx.buf.block), tx.currBuf.off;
      TextLength(mem, tx.buf.block);
      assert t == t[..c] + t[c..];
    }
  }

  lemma TextLength(mem: seq<Block>, b: nat)
    requires b < |mem| && mem[b].len <= |mem[b].data|
    ensures |Text(mem, b)| == mem[b].len
  {
  }

  lemma LineText(tx: TxHalf, mem: seq<Block>, rest: seq<nat>)
    ensures Flat(Texts(mem, TxLine(tx, rest)))
         == (if tx.buf.At? then Text(mem, tx.buf.block) else []) + Flat(Texts(mem, rest))
  {
    if tx.buf.At? {
      var t := Text(mem, tx.buf.block);
      assert Texts(mem, TxLine(tx, rest)) == [t] + Texts(mem, rest);
      FlatConcat([t], Texts(mem, rest));
      FlatOne(t);
    } else {
      assert TxLine(tx, rest) == rest;
    }
  }
}
