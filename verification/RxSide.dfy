/** The receive half: the adapter's pointers, the client's byte count, and what
  both say about the bytes received so far. */
module RxSide {
  import opened Bytes
  import opened BlockHeap
  import opened RxProtocol

  /** The `rx` part of struct uart_async_adapter_data. */
  datatype RxHalf = RxHalf(buf: Pointer, currBuf: Pointer, lastNotifyBuf: Pointer, sizeLeft: nat,
                           nextBuf: Pointer, nextBufLen: nat, timeout: int, enabled: bool)

  /** A byte taken from the hardware FIFO, and what became of it: a byte is
    dropped for want of a buffer, or with a buffer given back before it was reported. */
  datatype HwByte = Kept(b: byte) | Dropped(b: byte)

  /** What has happened: bytes taken from the hardware, payloads handed to
    bt_nus_send, and the events between adapter and client. */
  datatype RxLog = RxLog(hw: seq<HwByte>, sent: seq<seq<byte>>, events: seq<RxEvent>)

  function KeptBytes(hw: seq<HwByte>): seq<byte> {
    if hw == [] then []
    else KeptBytes(hw[..|hw| - 1]) + (match hw[|hw| - 1] case Kept(b) => [b] case Dropped(_) => [])
  }

  function AllBytes(hw: seq<HwByte>): seq<byte> {
    seq(|hw|, i requires 0 <= i < |hw| => hw[i].b)
  }

  /** The bytes `s`, all kept or all dropped. */
  function Mark(s: seq<byte>, kept: bool): seq<HwByte> {
    seq(|s|, i requires 0 <= i < |s| => if kept then Kept(s[i]) else Dropped(s[i]))
  }

  lemma MarkSnoc(s: seq<byte>, kept: bool)
    requires s != []
    ensures Mark(s, kept) == Mark(s[..|s| - 1], kept) + [if kept then Kept(s[|s| - 1]) else Dropped(s[|s| - 1])]
  {
  }

  lemma KeptSnoc(hw: seq<HwByte>, h: HwByte)
    ensures KeptBytes(hw + [h]) == KeptBytes(hw) + (match h case Kept(b) => [b] case Dropped(_) => [])
  {
    assert (hw + [h])[..|hw|] == hw;
  }

  lemma AllSnoc(hw: seq<HwByte>, h: HwByte)
    ensures AllBytes(hw + [h]) == AllBytes(hw) + [h.b]
  {
  }

  lemma {:induction false} KeptMarked(hw: seq<HwByte>, s: seq<byte>, kept: bool)
    ensures KeptBytes(hw + Mark(s, kept)) == KeptBytes(hw) + (if kept then s else [])
  {
    hide KeptBytes, Mark;
    if s == [] {
      assert hw + Mark(s, kept) == hw by {
        EmptyMark(kept);
      }
    } else {
      var init, last := s[..|s| - 1], s[|s| - 1];
      KeptMarked(hw, init, kept);
      MarkSnoc(s, kept);
      var h := if kept then Kept(last) else Dropped(last);
      assert hw + (Mark(init, kept) + [h]) == (hw + Mark(init, kept)) + [h];
      KeptSnoc(hw + Mark(init, kept), h);
      assert s == init + [last];
    }
  }

  lemma EmptyMark(kept: bool)
    ensures Mark([], kept) == []
  {
  }

  lemma MarkedBytes(hw: seq<HwByte>, s: seq<byte>, kept: bool)
    ensures KeptBytes(hw + Mark(s, kept)) == KeptBytes(hw) + (if kept then s else [])
    ensures AllBytes(hw + Mark(s, kept)) == AllBytes(hw) + s
  {
    hide KeptBytes;
    KeptMarked(hw, s, kept);
  }

  /** `avail` taken from the hardware with room for `room` bytes: those are kept, the rest dropped. */
  function Received(hw: seq<HwByte>, avail: seq<byte>, room: nat): seq<HwByte> {
    var k := if |avail| <= room then |avail| else room;
    hw + Mark(avail[..k], true) + Mark(avail[k..], false)
  }

  lemma MarkConcat(s: seq<byte>, t: seq<byte>, kept: bool)
    ensures Mark(s + t, kept) == Mark(s, kept) + Mark(t, kept)
  {
  }

  lemma ReceivedOn(hw: seq<HwByte>, avail: seq<byte>, room: nat, n: nat)
    requires n <= |avail| && n <= room
    ensures Received(hw, avail, room) == Received(hw + Mark(avail[..n], true), avail[n..], room - n)
  {
    hide Mark;
    var k := if |avail| <= room then |avail| else room;
    var rest := avail[n..];
    assert avail[..k] == avail[..n] + rest[..k - n];
    assert avail[k..] == rest[k - n..];
    MarkConcat(avail[..n], rest[..k - n], true);
    var a, b, c := Mark(avail[..n], true), Mark(rest[..k - n], true), Mark(rest[k - n..], false);
    assert hw + (a + b) + c == (hw + a) + b + c;
  }

  lemma ReceivedNone(hw: seq<HwByte>, room: nat)
    ensures Received(hw, [], room) == hw
  {
    hide Mark;
    EmptyMark(true);
    EmptyMark(false);
  }

  lemma ReceivedInVain(hw: seq<HwByte>, avail: seq<byte>)
    ensures Received(hw, avail, 0) == hw + Mark(avail, false)
  {
    hide Mark;
    EmptyMark(true);
    assert avail[0..] == avail && avail[..0] == [];
  }

  lemma ReceivedBytes(hw: seq<HwByte>, avail: seq<byte>, room: nat)
    ensures AllBytes(Received(hw, avail, room)) == AllBytes(hw) + avail
    ensures KeptBytes(Received(hw, avail, room)) == KeptBytes(hw) + (if |avail| <= room then avail else avail[..room])
  {
    hide Mark, KeptBytes, AllBytes;
    var k := if |avail| <= room then |avail| else room;
    MarkedBytes(hw, avail[..k], true);
    MarkedBytes(hw + Mark(avail[..k], true), avail[k..], false);
    assert avail == avail[..k] + avail[k..];
  }

  /** The last `n` kept bytes are dropped after all. */
  function Discard(hw: seq<HwByte>, n: nat): seq<HwByte> {
    if n == 0 || hw == [] then hw
    else match hw[|hw| - 1]
         case Kept(b) => Discard(hw[..|hw| - 1], n - 1) + [Dropped(b)]
         case Dropped(b) => Discard(hw[..|hw| - 1], n) + [Dropped(b)]
  }

  lemma {:induction false} DiscardedBytes(hw: seq<HwByte>, n: nat)
    requires n <= |KeptBytes(hw)|
    ensures KeptBytes(Discard(hw, n)) == KeptBytes(hw)[..|KeptBytes(hw)| - n]
    ensures AllBytes(Discard(hw, n)) == AllBytes(hw)
  {
    if n > 0 && hw != [] {
      var init, last := hw[..|hw| - 1], hw[|hw| - 1];
      var m := if last.Kept? then n - 1 else n;
      DiscardedBytes(init, m);
      var init' := Discard(init, m);
      assert hw == init + [last] && Discard(hw, n) == init' + [Dropped(last.b)];
      hide Discard;
      KeptSnoc(init, last);
      KeptSnoc(init', Dropped(last.b));
      AllSnoc(init, last);
      AllSnoc(init', Dropped(last.b));
    }
  }

  /** The part of the current receive buffer that holds received bytes. */
  function Filled(mem: seq<Block>, rx: RxHalf): seq<byte> {
    if rx.buf.At? && rx.currBuf.At? && rx.buf.block < |mem| && rx.currBuf.off <= |mem[rx.buf.block].data|
    then mem[rx.buf.block].data[..rx.currBuf.off] else []
  }

  /** The part of it the client has not been told about. */
  function Unnotified(mem: seq<Block>, rx: RxHalf): seq<byte> {
    if rx.lastNotifyBuf.At? && rx.lastNotifyBuf.off <= |Filled(mem, rx)|
    then Filled(mem, rx)[rx.lastNotifyBuf.off..] else []
  }

  predicate EndsLine(s: seq<byte>) {
    s != [] && IsLineEnd(s[|s| - 1])
  }

  /** The blocks a receive buffer can come from once the current one is queued. */
  function Spare(rx: RxHalf, free: set<nat>): set<nat> {
    free + (if rx.nextBuf.At? then {rx.nextBuf.block} else {})
  }

  /** How many of the bytes `avail` an interrupt can keep: what the current buffer
    has room for, and then, if a next buffer was prepared or the current one ends
    with a line's end just when it is full, as much as the spare blocks hold. */
  function Room(rx: RxHalf, mem: seq<Block>, free: set<nat>, size: nat, avail: seq<byte>): nat {
    if rx.nextBuf.At? || (rx.sizeLeft <= |avail| && EndsLine(Unnotified(mem, rx) + avail[..rx.sizeLeft]))
    then rx.sizeLeft + |Spare(rx, free)| * size
    else rx.sizeLeft
  }

  /** Bytes read into the current buffer use up as much of the room. */
  lemma RoomAfterRead(rx: RxHalf, mem: seq<Block>, rx': RxHalf, mem': seq<Block>, free: set<nat>, size: nat,
                      avail: seq<byte>, n: nat)
    requires n <= |avail| && n <= rx.sizeLeft && rx'.sizeLeft == rx.sizeLeft - n && rx'.nextBuf == rx.nextBuf
    requires Unnotified(mem', rx') == Unnotified(mem, rx) + avail[..n]
    ensures Room(rx', mem', free, size, avail[n..]) + n == Room(rx, mem, free, size, avail)
  {
    hide Unnotified, EndsLine;
    if rx.sizeLeft <= |avail| {
      assert Unnotified(mem', rx') + avail[n..][..rx'.sizeLeft] == Unnotified(mem, rx) + avail[..rx.sizeLeft];
    }
  }

  /** A spare block that becomes the current buffer leaves the room as it was. */
  lemma RoomAfterSwitch(rx: RxHalf, mem: seq<Block>, free: set<nat>, rx': RxHalf, mem': seq<Block>, free': set<nat>,
                        size: nat, avail: seq<byte>, b: nat)
    requires rx.sizeLeft == 0 && (rx.nextBuf.At? || EndsLine(Unnotified(mem, rx)))
    requires rx'.sizeLeft == size && (rx'.nextBuf.Null? ==> Spare(rx', free') == {})
    requires b in Spare(rx, free) && Spare(rx', free') == Spare(rx, free) - {b}
    ensures Room(rx', mem', free', size, avail) == Room(rx, mem, free, size, avail)
  {
    hide Unnotified, EndsLine, Spare;
    assert avail[..0] == [] && Unnotified(mem, rx) + [] == Unnotified(mem, rx);
    var k := |Spare(rx, free)|;
    assert |Spare(rx', free')| == k - 1;
    assert k * size == (k - 1) * size + size;
  }

  /** Every payload fills a whole buffer or ends with a line's end. */
  predicate WellCut(payloads: seq<seq<byte>>, size: nat) {
    forall i :: 0 <= i < |payloads| ==> |payloads[i]| == size || EndsLine(payloads[i])
  }

  /** From `from` on, every payload fills a whole buffer. */
  predicate FullTexts(payloads: seq<seq<byte>>, from: nat, size: nat) {
    forall i :: from <= i < |payloads| ==> |payloads[i]| == size
  }

  lemma WellCutSnoc(payloads: seq<seq<byte>>, size: nat, payload: seq<byte>)
    requires WellCut(payloads, size) && (|payload| == size || EndsLine(payload))
    ensures WellCut(payloads + [payload], size)
  {
  }

  /** The buffers the adapter holds, as the protocol monitor sees them. */
  function Slots(rx: RxHalf): seq<Slot> {
    (if rx.buf.At? then [Slot(rx.buf.block, if rx.lastNotifyBuf.At? then rx.lastNotifyBuf.off else 0)] else [])
    + (if rx.nextBuf.At? then [Slot(rx.nextBuf.block, 0)] else [])
  }

  // -------------------------------------------------------------- invariant

  /** The pointers and lengths; the client has yet to add `unread` reported
    bytes to its count. */
  predicate RxShape(rx: RxHalf, mem: seq<Block>, size: nat, unread: nat) {
    && (rx.buf.Null? ==> rx.currBuf.Null? && rx.lastNotifyBuf.Null? && rx.sizeLeft == 0)
    && (rx.buf.At? ==>
          && rx.buf.off == 0 && rx.buf.block < |mem|
          && rx.currBuf.At? && rx.currBuf.block == rx.buf.block
          && rx.lastNotifyBuf.At? && rx.lastNotifyBuf.block == rx.buf.block
          && rx.lastNotifyBuf.off <= rx.currBuf.off
          && rx.currBuf.off + rx.sizeLeft == size
          && |mem[rx.buf.block].data| == size
          && mem[rx.buf.block].len + unread == rx.lastNotifyBuf.off)
    && (rx.nextBuf.Null? <==> rx.nextBufLen == 0)
    && (rx.nextBuf.At? ==>
          && rx.nextBuf.off == 0 && rx.nextBuf.block < |mem| && rx.nextBufLen == size
          && |mem[rx.nextBuf.block].data| == size && mem[rx.nextBuf.block].len == 0
          && Ref(rx.buf) != [rx.nextBuf.block])
  }

  /** No received byte is lost, duplicated or reordered. */
  predicate RxStream(rx: RxHalf, mem: seq<Block>, line: seq<nat>, log: RxLog) {
    KeptBytes(log.hw) == Flat(log.sent) + Flat(Texts(mem, line)) + Filled(mem, rx)
  }

  /** The events keep to the protocol. */
  predicate RxTrace(rx: RxHalf, size: nat, log: RxLog) {
    Monitor(log.events, size) == Some(Slots(rx))
  }

  predicate RxInv(rx: RxHalf, mem: seq<Block>, size: nat, unread: nat, line: seq<nat>, log: RxLog) {
    && 0 < size
    && RxShape(rx, mem, size, unread)
    && Loaded(mem, line)
    && RxStream(rx, mem, line, log)
    && RxTrace(rx, size, log)
  }

  // --------------------------------------------- what each step does to it

  /** Another block is written. */
  lemma RxFrame(rx: RxHalf, mem: seq<Block>, mem': seq<Block>, b: nat, size: nat, line: seq<nat>, log: RxLog)
    requires RxInv(rx, mem, size, 0, line, log) && OnlyBlock(mem, mem', b)
    requires b !in line && b !in Ref(rx.buf) && b !in Ref(rx.nextBuf)
    ensures RxInv(rx, mem', size, 0, line, log)
  {
    hide Monitor, KeptBytes, Flat;
    TextsFrame(mem, mem', b, line);
    assert rx.buf.At? ==> rx.buf.block in Ref(rx.buf);
    assert rx.nextBuf.At? ==> rx.nextBuf.block in Ref(rx.nextBuf);
  }

  /** An empty block becomes the next buffer. */
  lemma RxSupply(rx: RxHalf, mem: seq<Block>, size: nat, line: seq<nat>, log: RxLog,
                 b: nat, timeout: int, enabled: bool)
    requires RxInv(rx, mem, size, 0, line, log) && rx.nextBuf.Null?
    requires b < |mem| && |mem[b].data| == size && b !in line && b !in Ref(rx.buf)
    ensures RxInv(rx.(nextBuf := At(b, 0), nextBufLen := size, timeout := timeout, enabled := enabled),
                  mem[b := mem[b].(len := 0)], size, 0, line, log.(events := log.events + [Supplied(b)]))
  {
    hide Monitor, KeptBytes, Flat;
    var mem' := mem[b := mem[b].(len := 0)];
    TextsFrame(mem, mem', b, line);
    assert rx.buf.At? ==> rx.buf.block in Ref(rx.buf);
    MonitorSnoc(log.events, Supplied(b), size);
    assert !Holds(Slots(rx), b);
    var rx' := rx.(nextBuf := At(b, 0), nextBufLen := size, timeout := timeout, enabled := enabled);
    assert Slots(rx) + [Slot(b, 0)] == Slots(rx');
  }

  lemma RxOff(mem: seq<Block>, size: nat)
    requires 0 < size
    ensures RxInv(RxHalf(Null, Null, Null, 0, Null, 0, 0, false), mem, size, 0, [], RxLog([], [], []))
  {
    assert Texts(mem, []) == [];
    assert Flat([]) == [];
  }

  /** Reception has been started into the empty block `r`; another block was written since. */
  lemma RxFirst(mem: seq<Block>, size: nat, r: nat, t: nat, first: Block, timeout: int)
    requires 0 < size && r < |mem| && t < |mem| && r != t && |mem[r].data| == size && |first.data| == size
    ensures RxInv(RxHalf(Null, Null, Null, 0, At(r, 0), size, timeout, true),
                  mem[r := mem[r].(len := 0)][t := first], size, 0,
                  [], RxLog([], [], [Supplied(r)]))
  {
    hide RxInv;
    RxOff(mem, size);
    RxSupply(RxHalf(Null, Null, Null, 0, Null, 0, 0, false), mem, size, [], RxLog([], [], []), r, timeout, true);
    var none: seq<RxEvent> := [];
    assert none + [Supplied(r)] == [Supplied(r)];
    var mem' := mem[r := mem[r].(len := 0)];
    RxFrame(RxHalf(Null, Null, Null, 0, At(r, 0), size, timeout, true), mem', mem'[t := first], t, size, [],
            RxLog([], [], [Supplied(r)]));
  }

  /** The pointers after the next buffer has become the current one. */
  function Advanced(rx: RxHalf): RxHalf {
    rx.(buf := rx.nextBuf, currBuf := rx.nextBuf, lastNotifyBuf := rx.nextBuf, sizeLeft := rx.nextBufLen,
        nextBuf := Null, nextBufLen := 0)
  }

  /** There was no current buffer; the next one takes its place. */
  lemma RxAdvance(rx: RxHalf, mem: seq<Block>, size: nat, line: seq<nat>, log: RxLog)
    requires RxInv(rx, mem, size, 0, line, log) && rx.buf.Null?
    ensures RxInv(Advanced(rx), mem, size, 0, line, log)
  {
    assert Slots(Advanced(rx)) == Slots(rx);
    assert Filled(mem, Advanced(rx)) == Filled(mem, rx);
  }

  /** The current buffer is replaced by the next one; if any of it was reported it
    is queued. What was received into it but not reported is lost. */
  lemma RxRelease(rx: RxHalf, mem: seq<Block>, size: nat, line: seq<nat>, log: RxLog)
    requires RxInv(rx, mem, size, 0, line, log) && rx.buf.At?
    ensures RxInv(Advanced(rx), mem, size, 0, if mem[rx.buf.block].len > 0 then line + [rx.buf.block] else line,
                  log.(events := log.events + [Released(rx.buf.block)], hw := Discard(log.hw, |Unnotified(mem, rx)|)))
  {
    hide Monitor, KeptBytes, AllBytes, Discard, Flat, RxTrace;
    var b := rx.buf.block;
    ReleaseTrace(rx, size, log);
    assert Filled(mem, rx) == Text(mem, b) + Unnotified(mem, rx);
    DiscardedBytes(log.hw, |Unnotified(mem, rx)|);
    if mem[b].len > 0 {
      assert Texts(mem, line + [b]) == Texts(mem, line) + [Text(mem, b)];
      FlatSnoc(Texts(mem, line), Text(mem, b));
    }
  }

  lemma ReleaseTrace(rx: RxHalf, size: nat, log: RxLog)
    requires RxTrace(rx, size, log) && rx.buf.At? && (rx.nextBuf.Null? || rx.nextBuf.off == 0)
    ensures forall hw :: RxTrace(Advanced(rx), size, log.(events := log.events + [Released(rx.buf.block)], hw := hw))
  {
    MonitorSnoc(log.events, Released(rx.buf.block), size);
    assert Slots(rx)[1..] == Slots(Advanced(rx));
  }

  /** The enable flag is no part of the buffers' state. */
  lemma RxSwitched(rx: RxHalf, mem: seq<Block>, size: nat, line: seq<nat>, log: RxLog, enabled: bool)
    requires RxInv(rx, mem, size, 0, line, log)
    ensures RxInv(rx.(enabled := enabled), mem, size, 0, line, log)
  {
    var rx' := rx.(enabled := enabled);
    assert Slots(rx') == Slots(rx) && Filled(mem, rx') == Filled(mem, rx);
  }

  /** The driver reports that reception is off; it holds no buffer. */
  lemma RxDisabled(rx: RxHalf, mem: seq<Block>, size: nat, line: seq<nat>, log: RxLog)
    requires RxInv(rx, mem, size, 0, line, log) && rx.buf.Null? && rx.nextBuf.Null?
    ensures RxInv(rx, mem, size, 0, line, log.(events := log.events + [Disabled]))
  {
    MonitorSnoc(log.events, Disabled, size);
  }

  /** The unreported bytes are reported. */
  lemma RxReport(rx: RxHalf, mem: seq<Block>, size: nat, line: seq<nat>, log: RxLog)
    requires RxInv(rx, mem, size, 0, line, log) && rx.buf.At? && rx.lastNotifyBuf.off < rx.currBuf.off
    ensures var n := rx.currBuf.off - rx.lastNotifyBuf.off;
            RxInv(rx.(lastNotifyBuf := rx.currBuf), mem, size, n, line,
                  log.(events := log.events + [Ready(rx.buf.block, rx.lastNotifyBuf.off, n)]))
  {
    var n := rx.currBuf.off - rx.lastNotifyBuf.off;
    MonitorSnoc(log.events, Ready(rx.buf.block, rx.lastNotifyBuf.off, n), size);
  }

  /** The client adds the reported bytes to its count. */
  lemma RxCount(rx: RxHalf, mem: seq<Block>, size: nat, n: nat, line: seq<nat>, log: RxLog)
    requires RxInv(rx, mem, size, n, line, log) && rx.buf.At? && rx.buf.block !in line
    ensures RxInv(rx, mem[rx.buf.block := mem[rx.buf.block].(len := mem[rx.buf.block].len + n)], size, 0, line, log)
  {
    TextsFrame(mem, mem[rx.buf.block := mem[rx.buf.block].(len := mem[rx.buf.block].len + n)], rx.buf.block, line);
  }

  /** Bytes are read into the current buffer. */
  lemma RxRead(rx: RxHalf, mem: seq<Block>, size: nat, line: seq<nat>, log: RxLog, s: seq<byte>)
    requires RxInv(rx, mem, size, 0, line, log) && rx.buf.At? && |s| <= rx.sizeLeft && rx.buf.block !in line
    ensures var b, c := rx.buf.block, rx.currBuf.off;
            var rx' := rx.(currBuf := At(b, c + |s|), sizeLeft := rx.sizeLeft - |s|);
            var mem' := mem[b := mem[b].(data := Overwrite(mem[b].data, c, s))];
            && RxInv(rx', mem', size, 0, line, log.(hw := log.hw + Mark(s, true)))
            && Unnotified(mem', rx') == Unnotified(mem, rx) + s
  {
    hide Monitor, KeptBytes, AllBytes, Mark, Flat, Texts, Loaded;
    var b, c := rx.buf.block, rx.currBuf.off;
    var rx' := rx.(currBuf := At(b, c + |s|), sizeLeft := rx.sizeLeft - |s|);
    var mem' := mem[b := mem[b].(data := Overwrite(mem[b].data, c, s))];
    TextsFrame(mem, mem', b, line);
    MarkedBytes(log.hw, s, true);
    assert Filled(mem', rx') == Filled(mem, rx) + s;
  }

  /** Bytes are read and thrown away. */
  lemma RxDrop(rx: RxHalf, mem: seq<Block>, size: nat, line: seq<nat>, log: RxLog, s: seq<byte>)
    requires RxInv(rx, mem, size, 0, line, log)
    ensures RxInv(rx, mem, size, 0, line, log.(hw := log.hw + Mark(s, false)))
  {
    MarkedBytes(log.hw, s, false);
  }

  /** The oldest queued block has been sent over BLE. */
  lemma RxSent(rx: RxHalf, mem: seq<Block>, size: nat, b: nat, line: seq<nat>, log: RxLog)
    requires RxInv(rx, mem, size, 0, [b] + line, log)
    ensures RxInv(rx, mem, size, 0, line, log.(sent := log.sent + [Text(mem, b)]))
  {
    hide Monitor, KeptBytes, RxShape, Text, Filled, Flat;
    assert forall i :: 0 <= i < |line| ==> line[i] == ([b] + line)[i + 1];
    assert Texts(mem, [b] + line) == [Text(mem, b)] + Texts(mem, line);
    FlatConcat([Text(mem, b)], Texts(mem, line));
    FlatOne(Text(mem, b));
    FlatSnoc(log.sent, Text(mem, b));
    var t, ts, f := Text(mem, b), Flat(Texts(mem, line)), Filled(mem, rx);
    assert Flat(log.sent) + (t + ts) + f == (Flat(log.sent) + t) + ts + f;
  }
}
