/** One channel of the dual UART relay: the interrupt that assembles lines from
  uart0, the bounded message queue, and the thread that prints them on uart1. */
module LineRelay {
  import opened Bytes
  import opened LineTokens

  const QUEUE_SIZE: nat := 10

  const FROM_UART0: seq<byte> := Ascii("From Uart0: ")

  /** What is printed for a message text. */
  function Line(prefix: seq<byte>, t: seq<byte>): seq<byte> {
    prefix + CString(t) + [CR, LF]
  }

  function Lines(prefix: seq<byte>, ts: seq<seq<byte>>): seq<seq<byte>> {
    seq(|ts|, i requires 0 <= i < |ts| => Line(prefix, ts[i]))
  }

  lemma LinesSnoc(prefix: seq<byte>, ts: seq<seq<byte>>, t: seq<byte>)
    ensures Lines(prefix, ts + [t]) == Lines(prefix, ts) + [Line(prefix, t)]
  {
  }

  /** The texts of the tokens whose message found room in the queue. */
  function Accepted(ts: seq<Token>, kept: seq<bool>): seq<seq<byte>>
    requires |ts| == |kept|
  {
    if ts == [] then []
    else Accepted(ts[..|ts| - 1], kept[..|kept| - 1])
         + (if kept[|kept| - 1] then [Clip(ts[|ts| - 1].text)] else [])
  }

  lemma AcceptedSnoc(ts: seq<Token>, kept: seq<bool>, t: Token, k: bool)
    requires |ts| == |kept|
    ensures Accepted(ts + [t], kept + [k]) == Accepted(ts, kept) + (if k then [Clip(t.text)] else [])
  {
    assert (ts + [t])[..|ts|] == ts && (kept + [k])[..|kept|] == kept;
  }

  /** One more finished token; the messages behind the first `n` grow by its message, if that is queued. */
  lemma AcceptedGrows(ts: seq<Token>, kept: seq<bool>, t: Token, k: bool, done: seq<seq<byte>>)
    requires |ts| == |kept| && done <= Accepted(ts, kept)
    ensures done <= Accepted(ts + [t], kept + [k])
    ensures Accepted(ts + [t], kept + [k])[|done|..] 
         == Accepted(ts, kept)[|done|..] + (if k then [Clip(t.text)] else [])
  {
    hide Accepted, Clip;
    AcceptedSnoc(ts, kept, t, k);
  }

  /** Every message holds its text. */
  predicate HoldAll(ms: seq<seq<byte>>, ts: seq<seq<byte>>) {
    |ms| == |ts| && forall i :: 0 <= i < |ms| ==> LineTokens.Holds(ms[i], ts[i])
  }

  /** An interrupt that delivers some bytes, or a step of the print thread. */
  datatype Step = Batch(bytes: seq<byte>) | Get | Print

  /** What is printed for texts without a NUL. */
  function PlainLines(prefix: seq<byte>, ts: seq<seq<byte>>): seq<seq<byte>> {
    seq(|ts|, i requires 0 <= i < |ts| => prefix + ts[i] + [CR, LF])
  }

  lemma {:induction false} AcceptedFrom(ts: seq<Token>, kept: seq<bool>, i: nat)
    requires |ts| == |kept| && i < |Accepted(ts, kept)|
    ensures exists j :: 0 <= j < |ts| && kept[j] && Accepted(ts, kept)[i] == Clip(ts[j].text)
    decreases |ts|
  {
    var ts', kept' := ts[..|ts| - 1], kept[..|kept| - 1];
    if i < |Accepted(ts', kept')| {
      AcceptedFrom(ts', kept', i);
      var j :| 0 <= j < |ts'| && kept'[j] && Accepted(ts', kept')[i] == Clip(ts'[j].text);
      assert ts[j] == ts'[j] && kept[j] == kept'[j];
    } else {
      assert Accepted(ts, kept)[i] == Clip(ts[|ts| - 1].text);
    }
  }

  // ------------------------------------------- the relay seen from outside

  /** The bytes received, for every token whether its message was queued, how
    many messages are queued, whether the thread waits for one or holds one, and
    how many are printed. */
  datatype State = State(stream: seq<byte>, kept: seq<bool>, queued: nat, waiting: bool, got: bool, done: nat)

  /** A byte that finishes a token hands its message to a thread that waits for
    one, or queues it, unless ten are queued already. */
  function ByteIn(s: State, c: byte): State {
    var s' := s.(stream := s.stream + [c]);
    if !(IsLineEnd(c) && ParseOf(s.stream).rest != []) then s'
    else if s.waiting then s'.(kept := s.kept + [true], waiting := false, got := true)
    else if s.queued < QUEUE_SIZE then s'.(kept := s.kept + [true], queued := s.queued + 1)
    else s'.(kept := s.kept + [false])
  }

  function BatchIn(s: State, batch: seq<byte>): State {
    if batch == [] then s else ByteIn(BatchIn(s, batch[..|batch| - 1]), batch[|batch| - 1])
  }

  function StepIn(s: State, step: Step): State {
    match step
    case Batch(bytes) => BatchIn(s, bytes)
    case Get =>
      if s.got then s
      else if s.queued > 0 then s.(queued := s.queued - 1, got := true)
      else s.(waiting := true)
    case Print => if s.got then s.(got := false, done := s.done + 1) else s
  }

  function StepsIn(s: State, steps: seq<Step>): State {
    if steps == [] then s else StepIn(StepsIn(s, steps[..|steps| - 1]), steps[|steps| - 1])
  }

  /** What the interrupts of a run delivered. */
  function BytesOf(steps: seq<Step>): seq<byte> {
    if steps == [] then []
    else BytesOf(steps[..|steps| - 1]) + (match steps[|steps| - 1] case Batch(bytes) => bytes case _ => [])
  }

  lemma BatchSnoc(s: State, batch: seq<byte>, c: byte)
    ensures BatchIn(s, batch + [c]) == ByteIn(BatchIn(s, batch), c)
  {
    assert (batch + [c])[..|batch|] == batch;
  }

  lemma StepsSnoc(s: State, steps: seq<Step>, step: Step)
    ensures StepsIn(s, steps + [step]) == StepIn(StepsIn(s, steps), step)
  {
    assert (steps + [step])[..|steps|] == steps;
  }

  lemma {:induction false} BatchStream(s: State, batch: seq<byte>)
    ensures BatchIn(s, batch).stream == s.stream + batch
  {
    if batch != [] {
      BatchStream(s, batch[..|batch| - 1]);
      assert batch == batch[..|batch| - 1] + [batch[|batch| - 1]];
    }
  }

  lemma {:induction false} RunStream(s: State, steps: seq<Step>)
    ensures StepsIn(s, steps).stream == s.stream + BytesOf(steps)
  {
    if steps != [] {
      RunStream(s, steps[..|steps| - 1]);
      match steps[|steps| - 1]
      case Batch(bytes) => BatchStream(StepsIn(s, steps[..|steps| - 1]), bytes);
      case _ =>
    }
  }

  lemma {:induction false} BatchConcat(s: State, a: seq<byte>, b: seq<byte>)
    ensures BatchIn(BatchIn(s, a), b) == BatchIn(s, a + b)
  {
    if b == [] {
      assert a + b == a;
    } else {
      var init, c := b[..|b| - 1], b[|b| - 1];
      BatchConcat(s, a, init);
      assert a + b == (a + init) + [c];
      BatchSnoc(s, a + init, c);
    }
  }

  lemma {:induction false} StepsConcat(s: State, a: seq<Step>, b: seq<Step>)
    ensures StepsIn(s, a + b) == StepsIn(StepsIn(s, a), b)
  {
    if b == [] {
      assert a + b == a;
    } else {
      var init, last := b[..|b| - 1], b[|b| - 1];
      StepsConcat(s, a, init);
      assert a + b == (a + init) + [last];
      StepsSnoc(s, a + init, last);
    }
  }

  // ------------------------------------------------- the thread left alone

  /** It prints what it has, and gets the next message. */
  function PrintRounds(n: nat): seq<Step> {
    if n == 0 then [] else PrintRounds(n - 1) + [Print, Get]
  }

  /** Messages kept and not yet printed. */
  function Pending(s: State): nat {
    s.queued + (if s.got then 1 else 0)
  }

  /** It prints every pending message in as many rounds as there are and one more. */
  lemma {:induction false} ThreadPrints(s: State, n: nat)
    ensures var z := StepsIn(s, PrintRounds(n));
      && z.stream == s.stream && z.kept == s.kept && z.done + Pending(z) == s.done + Pending(s)
      && (n > 0 ==> (z.got || Pending(z) == 0) && (Pending(z) + n - 1 <= Pending(s) || Pending(z) == 0))
      && (n > Pending(s) ==> !z.got && z.queued == 0 && z.done == s.done + Pending(s))
  {
    hide StepIn;
    if n > 0 {
      ThreadPrints(s, n - 1);
      var was := PrintRounds(n - 1);
      assert PrintRounds(n) == (was + [Print]) + [Get];
      StepsSnoc(s, was, Print);
      StepsSnoc(s, was + [Print], Get);
      hide StepsIn, PrintRounds;
      PrintRound(StepsIn(s, was));
    }
  }

  lemma PrintRound(s: State)
    ensures var u := StepIn(StepIn(s, Print), Get);
      && u.stream == s.stream && u.kept == s.kept && u.done + Pending(u) == s.done + Pending(s)
      && (u.got || Pending(u) == 0) && Pending(u) == if s.got then Pending(s) - 1 else Pending(s)
  {
  }

  lemma {:induction false} NoBytes(n: nat)
    ensures BytesOf(PrintRounds(n)) == []
  {
    if n > 0 {
      NoBytes(n - 1);
      var was := PrintRounds(n - 1);
      assert (was + [Print, Get])[..|was| + 1] == was + [Print];
      assert (was + [Print])[..|was|] == was;
    }
  }

  lemma {:induction false} BytesConcat(a: seq<Step>, b: seq<Step>)
    ensures BytesOf(a + b) == BytesOf(a) + BytesOf(b)
  {
    if b == [] {
      assert a + b == a;
    } else {
      var init := b[..|b| - 1];
      BytesConcat(a, init);
      assert (a + b)[..|a + b| - 1] == a + init;
    }
  }

  /** How the parse and the queue go together while no message has been dropped. */
  predicate Undropped(s: State) {
    && |s.kept| == |ParseOf(s.stream).tokens| && s.queued <= |s.kept|
    && forall i :: 0 <= i < |s.kept| ==> s.kept[i]
  }

  lemma {:induction false} FewBytesKept(s: State, batch: seq<byte>)
    requires Undropped(s) && |ParseOf(s.stream + batch).tokens| <= 10
    ensures Undropped(BatchIn(s, batch))
  {
    hide ParseOf, Undropped, ByteIn;
    if batch != [] {
      var init, c := batch[..|batch| - 1], batch[|batch| - 1];
      assert s.stream + batch == (s.stream + init) + [c];
      TokensGrow(s.stream + init, [c]);
      FewBytesKept(s, init);
      BatchStream(s, init);
      ByteKept(BatchIn(s, init), c);
    }
  }

  lemma ByteKept(s: State, c: byte)
    requires Undropped(s) && |ParseOf(s.stream + [c]).tokens| <= 10
    ensures Undropped(ByteIn(s, c))
  {
    ParseSnoc(s.stream, c);
    hide ParseOf;
  }

  /** In a run that receives at most ten lines, no message is dropped. */
  lemma {:induction false} FewLinesKept(s: State, steps: seq<Step>)
    requires Undropped(s) && |ParseOf(s.stream + BytesOf(steps)).tokens| <= 10
    ensures Undropped(StepsIn(s, steps))
  {
    if steps == [] {
      assert s.stream + [] == s.stream;
    } else {
      var init, last := steps[..|steps| - 1], steps[|steps| - 1];
      RunStream(s, init);
      match last
      case Batch(bytes) =>
        assert s.stream + BytesOf(steps) == (s.stream + BytesOf(init)) + bytes;
        TokensGrow(s.stream + BytesOf(init), bytes);
        FewLinesKept(s, init);
        FewBytesKept(StepsIn(s, init), bytes);
      case _ =>
        assert BytesOf(steps) == BytesOf(init);
        FewLinesKept(s, init);
    }
  }

  lemma {:induction false} TokensGrow(s: seq<byte>, batch: seq<byte>)
    ensures ParseOf(s).tokens <= ParseOf(s + batch).tokens
  {
    if batch == [] {
      assert s + batch == s;
    } else {
      TokensGrow(s, batch[..|batch| - 1]);
      assert s + batch == (s + batch[..|batch| - 1]) + [batch[|batch| - 1]];
      ParseSnoc(s + batch[..|batch| - 1], batch[|batch| - 1]);
    }
  }

  lemma {:induction false} AtMostTen(s: State, steps: seq<Step>)
    requires s.queued <= 10
    ensures StepsIn(s, steps).queued <= 10
  {
    if steps != [] {
      AtMostTen(s, steps[..|steps| - 1]);
      match steps[|steps| - 1]
      case Batch(bytes) => AtMostTenBytes(StepsIn(s, steps[..|steps| - 1]), bytes);
      case _ =>
    }
  }

  lemma {:induction false} AtMostTenBytes(s: State, batch: seq<byte>)
    requires s.queued <= 10
    ensures BatchIn(s, batch).queued <= 10
  {
    if batch != [] {
      AtMostTenBytes(s, batch[..|batch| - 1]);
    }
  }

  /** What is printed for a line's text: at most 31 bytes of it. */
  function UartLine(text: seq<byte>): seq<byte> {
    Ascii("From Uart0: ") + (if |text| <= 31 then text else text[..31]) + [13, 10]
  }

  function UartLines(ts: seq<Token>): seq<seq<byte>> {
    seq(|ts|, i requires 0 <= i < |ts| => UartLine(ts[i].text))
  }

  lemma {:induction false} AllAccepted(ts: seq<Token>, kept: seq<bool>)
    requires |ts| == |kept| && forall i :: 0 <= i < |kept| ==> kept[i]
    ensures |Accepted(ts, kept)| == |ts|
    ensures forall i :: 0 <= i < |ts| ==> Accepted(ts, kept)[i] == Clip(ts[i].text)
  {
    if ts != [] {
      AllAccepted(ts[..|ts| - 1], kept[..|kept| - 1]);
    }
  }

  /** Only the thread can tell where one interrupt ends and the next begins: two
    of them with no thread step in between do, to the whole run, what one does. */
  lemma {:induction false} InterruptsMerge(s: State, before: seq<Step>, a: seq<byte>, b: seq<byte>, after: seq<Step>)
    ensures StepsIn(s, before + [Batch(a), Batch(b)] + after) == StepsIn(s, before + [Batch(a + b)] + after)
    decreases |after|
  {
    if after == [] {
      assert before + [Batch(a), Batch(b)] + after == (before + [Batch(a)]) + [Batch(b)];
      assert before + [Batch(a + b)] + after == before + [Batch(a + b)];
      StepsSnoc(s, before + [Batch(a)], Batch(b));
      StepsSnoc(s, before, Batch(a));
      StepsSnoc(s, before, Batch(a + b));
      BatchConcat(StepsIn(s, before), a, b);
    } else {
      var init, last := after[..|after| - 1], after[|after| - 1];
      InterruptsMerge(s, before, a, b, init);
      assert before + [Batch(a), Batch(b)] + after == (before + [Batch(a), Batch(b)] + init) + [last];
      assert before + [Batch(a + b)] + after == (before + [Batch(a + b)] + init) + [last];
      StepsSnoc(s, before + [Batch(a), Batch(b)] + init, last);
      StepsSnoc(s, before + [Batch(a + b)] + init, last);
    }
  }

  predicate IsClipOf(t: seq<byte>, ts: seq<Token>) {
    exists j :: 0 <= j < |ts| && t == Clip(ts[j].text)
  }

  class Relay {
    const prefix: seq<byte>    // FROM_UART0
    const rxBuf: array<byte>   // rx0_buf
    const txBuf: array<byte>   // tx0_buf
    var rxPos: nat             // rx0_buf_pos
    var msgq: seq<seq<byte>>   // uart0_msgq
    var waiting: bool          // the thread is blocked in k_msgq_get
    var got: bool              // the thread has a message in tx0_buf
    var printed: seq<byte>     // bytes polled out on uart1

    ghost var stream: seq<byte>     // bytes received on uart0
    ghost var kept: seq<bool>       // for every token, whether its message was queued
    ghost var done: seq<seq<byte>>  // message texts printed

    ghost function Tokens(): seq<Token>
      reads this
    {
      ParseOf(stream).tokens
    }

    /** Messages behind the printed ones: the one the thread holds, then the queue. */
    function Waiting(): seq<seq<byte>>
      reads this, txBuf
    {
      (if got then [txBuf[..]] else []) + msgq
    }

    ghost function Now(): State
      reads this
    {
      State(stream, kept, |msgq|, waiting, got, |done|)
    }

    ghost predicate Valid()
      reads this, rxBuf, txBuf
    {
      && NUL !in prefix
      && rxBuf != txBuf && rxBuf.Length == MSG_SIZE && txBuf.Length == MSG_SIZE
      && rxPos < MSG_SIZE && rxBuf[..rxPos] == Clip(ParseOf(stream).rest)
      && |kept| == |Tokens()|
      && |msgq| <= QUEUE_SIZE && (waiting ==> !got && msgq == [])
      && done <= Accepted(Tokens(), kept)
      && HoldAll(Waiting(), Accepted(Tokens(), kept)[|done|..])
      && printed == Flat(Lines(prefix, done))
    }

    constructor (prefix: seq<byte>)
      requires NUL !in prefix
      ensures this.prefix == prefix && Valid() && stream == [] && done == [] && kept == []
      ensures msgq == [] && !waiting && !got
      ensures fresh(rxBuf) && fresh(txBuf)
    {
      this.prefix := prefix;
      rxBuf := new byte[MSG_SIZE](_ => NUL);
      txBuf := new byte[MSG_SIZE](_ => NUL);
      rxPos, msgq, waiting, got, printed := 0, [], false, false, [];
      stream, kept, done := [], [], [];
    }

    // ------------------------------------------------------- the interrupt

    /** k_msgq_put with K_NO_WAIT: a thread that waits gets the message at once; a
      full queue drops it. */
    method MsgqPut(m: seq<byte>) returns (ok: bool)
      requires |m| == txBuf.Length && (waiting ==> msgq == [])
      modifies `msgq, `waiting, `got, txBuf
      ensures ok <==> |old(msgq)| < 10
      ensures old(waiting) ==> !waiting && got && txBuf[..] == m && msgq == []
      ensures !old(waiting) ==>
        && !waiting && got == old(got) && txBuf[..] == old(txBuf[..])
        && msgq == old(msgq) + (if ok then [m] else [])
    {
      if waiting {
        Receive(m);
        waiting, ok := false, true;
      } else {
        ok := |msgq| < QUEUE_SIZE;
        if ok {
          msgq := msgq + [m];
        }
      }
    }

    /** A message is copied to tx0_buf. */
    method Receive(m: seq<byte>)
      requires |m| == txBuf.Length
      modifies `got, txBuf
      ensures got && txBuf[..] == m
    {
      forall i | 0 <= i < txBuf.Length {
        txBuf[i] := m[i];
      }
      got := true;
    }

    /** The line end of a non-empty line: the message is queued if there is room. */
    method FinishLine(c: byte)
      requires Valid() && IsLineEnd(c) && rxPos > 0
      modifies `rxPos, `msgq, `waiting, `got, `stream, `kept, rxBuf, txBuf
      ensures Valid()
      ensures stream == old(stream) + [c]
      ensures Tokens() == old(Tokens()) + [Token(old(ParseOf(stream).rest), c)]
      // dropped exactly when the queue is full
      ensures kept == old(kept) + [|old(msgq)| < 10]
      ensures Now() == ByteIn(old(Now()), c)
    {
      hide Flat, ParseOf, Accepted, Lines;
      ghost var p := ParseOf(stream);
      ghost var before := Waiting();
      ParseSnoc(stream, c);
      rxBuf[rxPos] := NUL;
      EndedText(rxBuf[..], rxPos, Clip(p.rest));
      var ok := MsgqPut(rxBuf[..]);
      rxPos := 0;
      AcceptedGrows(p.tokens, kept, Token(p.rest, c), ok, done);
      kept := kept + [ok];
      stream := stream + [c];
      assert Waiting() == before + (if ok then [rxBuf[..]] else []);
    }

    lemma EndedText(m: seq<byte>, n: nat, t: seq<byte>)
      requires |m| == MSG_SIZE && n < MSG_SIZE && m[..n] == t && m[n] == NUL
      ensures LineTokens.Holds(m, t)
    {
    }

    /** Any other byte: stored while there is room for it and the NUL. */
    method StoreByte(c: byte)
      requires Valid() && !(IsLineEnd(c) && rxPos > 0)
      modifies `rxPos, `stream, rxBuf
      ensures Valid()
      ensures stream == old(stream) + [c] && Tokens() == old(Tokens())
      ensures Now() == ByteIn(old(Now()), c)
    {
      hide Flat, Accepted, HoldAll, ParseOf;
      ParseSnoc(stream, c);
      ghost var rest := ParseOf(stream).rest;
      ClipGrows(rest, c);
      if rxPos < MSG_SIZE - 1 {
        rxBuf[rxPos] := c;
        rxPos := rxPos + 1;
        hide Clip;
        assert rxBuf[..rxPos] == Clip(rest) + [c];
      }
      stream := stream + [c];
    }

    /** One byte of uart0_cb's loop. */
    method Uart0Byte(c: byte)
      requires Valid()
      modifies `rxPos, `msgq, `waiting, `got, `stream, `kept, rxBuf, txBuf
      ensures Valid()
      ensures stream == old(stream) + [c]
      ensures Tokens() == old(Tokens()) ==> kept == old(kept) && msgq == old(msgq)
      ensures Tokens() != old(Tokens()) ==> kept == old(kept) + [|old(msgq)| < 10]
      ensures Now() == ByteIn(old(Now()), c)
    {
      hide Flat, Accepted, HoldAll, ParseOf;
      if IsLineEnd(c) && rxPos > 0 {
        FinishLine(c);
      } else {
        StoreByte(c);
      }
    }

    /** uart0_cb on the bytes of one interrupt; its k-th finished line is dropped
      exactly when ten messages wait at that point. */
    method Uart0Cb(batch: seq<byte>)
      requires Valid()
      modifies `rxPos, `msgq, `waiting, `got, `stream, `kept, rxBuf, txBuf
      ensures Valid()
      ensures Now() == BatchIn(old(Now()), batch) && stream == old(stream) + batch
    {
      hide ByteIn;
      for i := 0 to |batch|
        invariant Valid() && Now() == BatchIn(old(Now()), batch[..i])
      {
        BatchSnoc(old(Now()), batch[..i], batch[i]);
        assert batch[..i + 1] == batch[..i] + [batch[i]];
        Uart0Byte(batch[i]);
      }
      assert batch[..|batch|] == batch;
      BatchStream(old(Now()), batch);
    }

    // ----------------------------------------------------- the print thread

    method Strlen(buf: seq<byte>) returns (n: nat)
      requires NUL in buf
      ensures n < |buf| && buf[n] == NUL && NUL !in buf[..n]
    {
      n := 0;
      while buf[n] != NUL
        invariant n < |buf| && NUL !in buf[..n] && NUL in buf[n..]
        decreases |buf| - n
      {
        assert buf[..n + 1] == buf[..n] + [buf[n]];
        n := n + 1;
      }
    }

    method PrintUart(buf: seq<byte>)
      requires NUL in buf
      modifies `printed
      ensures printed == old(printed) + CString(buf)
    {
      var len := Strlen(buf);
      CStringTo(buf, len);
      for i := 0 to len
        invariant printed == old(printed) + buf[..i]
      {
        printed := printed + [buf[i]];
      }
    }

    /** k_msgq_get: the oldest message is copied to tx0_buf; with none, the thread waits. */
    method ThreadGet()
      requires Valid() && !got
      modifies `msgq, `waiting, `got, txBuf
      ensures Valid()
      ensures old(msgq) != [] ==> got && !waiting && txBuf[..] == old(msgq)[0] && msgq == old(msgq)[1..]
      ensures old(msgq) == [] ==> !got && waiting && msgq == []
    {
      hide Accepted, ParseOf, Flat, Lines;
      if msgq == [] {
        waiting := true;
        return;
      }
      assert LineTokens.Holds(Waiting()[0], Accepted(Tokens(), kept)[|done|..][0]);
      Receive(msgq[0]);
      msgq := msgq[1..];
      assert Waiting() == old(Waiting());
    }

    /** Prefix, message up to its NUL, line end. */
    method PrintLine(ghost t: seq<byte>)
      requires NUL !in prefix && LineTokens.Holds(txBuf[..], t)
      modifies `printed
      ensures printed == old(printed) + Line(prefix, t)
    {
      CStringOfPrefix(txBuf[..], t);
      CStringTo(prefix + [NUL], |prefix|);
      CStringTo([CR, LF, NUL], 2);
      hide CString;
      PrintUart(prefix + [NUL]);
      PrintUart(txBuf[..]);
      PrintUart([CR, LF, NUL]);
    }

    /** The message in hand is printed. */
    method ThreadPrint()
      requires Valid() && got
      modifies `got, `printed, `done
      ensures Valid() && !got
      ensures |done| == |old(done)| + 1 && done[..|old(done)|] == old(done)
      ensures LineTokens.Holds(txBuf[..], done[|old(done)|])
      ensures printed == old(printed) + Line(prefix, done[|old(done)|])
    {
      hide Accepted, ParseOf, Holds, Flat, Line, Lines, Clip;
      ghost var accepted := Accepted(Tokens(), kept);
      ghost var t := accepted[|done|..][0];
      assert LineTokens.Holds(Waiting()[0], t);
      PrintLine(t);
      LinesSnoc(prefix, done, t);
      FlatSnoc(Lines(prefix, done), Line(prefix, t));
      done := done + [t];
      got := false;
      assert accepted[|done|..] == old(accepted[|done|..])[1..];
      assert Waiting() == old(Waiting())[1..];
    }

    // ------------------------------------------------------------- any run

    /** Interrupts with any bytes, and the thread's two steps, in any order. */
    method Run(steps: seq<Step>)
      requires Valid()
      modifies this, rxBuf, txBuf
      ensures Valid()
      // the run does to the relay exactly what its steps, taken one by one, say
      ensures Now() == StepsIn(old(Now()), steps)
      // what the interrupts delivered parses into exactly these tokens
      ensures stream == old(stream) + BytesOf(steps)
      ensures Parses(stream, Tokens(), ParseOf(stream).rest) && |kept| == |Tokens()|
      // printed, then held and queued messages are the accepted tokens, in order
      ensures done <= Accepted(Tokens(), kept) && HoldAll(Waiting(), Accepted(Tokens(), kept)[|done|..])
      ensures |msgq| <= QUEUE_SIZE
      ensures printed == Flat(Lines(prefix, done))
    {
      hide BatchIn;
      for i := 0 to |steps|
        invariant Valid() && Now() == StepsIn(old(Now()), steps[..i])
      {
        StepsSnoc(old(Now()), steps[..i], steps[i]);
        assert steps[..i + 1] == steps[..i] + [steps[i]];
        Perform(steps[i]);
      }
      assert steps[..|steps|] == steps;
      RunStream(old(Now()), steps);
      ParseExists(stream);
    }

    /** One step; the thread waits when there is nothing for it to do. */
    method Perform(step: Step)
      requires Valid()
      modifies this, rxBuf, txBuf
      ensures Valid() && Now() == StepIn(old(Now()), step)
    {
      hide BatchIn, Accepted, Lines, Flat, HoldAll, ParseOf;
      match step {
        case Batch(bytes) => Uart0Cb(bytes);
        case Get =>
          if !got {
            ThreadGet();
          }
        case Print =>
          if got {
            ThreadPrint();
          }
      }
    }

    /** When no NUL was received, each printed line is the prefix, the token cut to
      31 bytes, and a line end: left-over bytes of the buffers never show. */
    lemma PrintedText()
      requires Valid() && NUL !in stream
      ensures printed == Flat(PlainLines(prefix, done))
      ensures forall i :: 0 <= i < |done| ==> IsClipOf(done[i], Tokens())
    {
      hide Accepted, ParseOf, Flat, HoldAll;
      TokensFromStream(stream, NUL);
      forall i | 0 <= i < |done|
        ensures Line(prefix, done[i]) == prefix + done[i] + [CR, LF]
        ensures IsClipOf(done[i], Tokens())
      {
        AcceptedFrom(Tokens(), kept, i);
        assert done[i] == Accepted(Tokens(), kept)[i];
        assert IsClipOf(done[i], Tokens());
        CStringWhole(done[i]);
      }
      assert Lines(prefix, done) == PlainLines(prefix, done);
    }
  }

  /** The relay as it is built, from start-up: the bytes on uart1 after any run are
    a function of the run's steps alone. */
  method Session(steps: seq<Step>) returns (relay: Relay)
    ensures fresh(relay) && relay.Valid() && relay.prefix == FROM_UART0
    ensures relay.Now() == StepsIn(State([], [], 0, false, false, 0), steps)
    ensures var s := StepsIn(State([], [], 0, false, false, 0), steps);
      var tokens := ParseOf(BytesOf(steps)).tokens;
      && |s.kept| == |tokens| && s.done <= |Accepted(tokens, s.kept)|
      && relay.printed == Flat(Lines(FROM_UART0, Accepted(tokens, s.kept)[..s.done]))
    ensures NUL !in BytesOf(steps) ==> relay.printed == Flat(PlainLines(FROM_UART0, relay.done))
  {
    hide Relay.Valid, StepsIn, ParseOf, Accepted, Lines, PlainLines, Flat, HoldAll, BytesOf;
    relay := new Relay(FROM_UART0);
    relay.Run(steps);
    assert relay.stream == BytesOf(steps);
    assert relay.done == Accepted(relay.Tokens(), relay.kept)[..|relay.done|];
    if NUL !in BytesOf(steps) {
      relay.PrintedText();
    }
  }

  /** From start-up, once the thread has had its time: everything accepted has been printed. */
  method PrintsAll(steps: seq<Step>) returns (relay: Relay)
    ensures fresh(relay) && relay.Valid() && relay.prefix == FROM_UART0 && relay.stream == BytesOf(steps)
    ensures var s := StepsIn(State([], [], 0, false, false, 0), steps);
      var tokens := ParseOf(BytesOf(steps)).tokens;
      && |s.kept| == |tokens| && relay.kept == s.kept && relay.done == Accepted(tokens, s.kept)
      && relay.printed == Flat(Lines(FROM_UART0, Accepted(tokens, s.kept)))
  {
    hide StepsIn, ParseOf, Accepted, Lines, PlainLines, Flat, BytesOf, PrintRounds;
    var start := State([], [], 0, false, false, 0);
    StepsConcat(start, steps, PrintRounds(12));
    AtMostTen(start, steps);
    ThreadPrints(StepsIn(start, steps), 12);
    RunStream(start, steps);
    BytesConcat(steps, PrintRounds(12));
    NoBytes(12);
    assert BytesOf(steps) + [] == BytesOf(steps);
    relay := Session(steps + PrintRounds(12));
    AllPrinted(relay);
  }

  lemma AllPrinted(relay: Relay)
    requires relay.Valid() && !relay.got && relay.msgq == []
    ensures relay.done == Accepted(relay.Tokens(), relay.kept)
  {
    hide Accepted, ParseOf, Flat, Lines;
    assert relay.Waiting() == [];
  }

  /** At most ten lines without a NUL come out as they went in, cut to 31 bytes,
    behind "From Uart0: ", however they arrived and whatever the thread did meanwhile. */
  method FewLinesPrinted(steps: seq<Step>) returns (relay: Relay)
    requires |ParseOf(BytesOf(steps)).tokens| <= 10 && 0 !in BytesOf(steps)
    ensures relay.printed == Flat(UartLines(ParseOf(BytesOf(steps)).tokens))
  {
    hide StepsIn, ParseOf, Accepted, Lines, Flat, BytesOf, HoldAll, Ascii, PlainLines;
    var start := State([], [], 0, false, false, 0);
    var tokens := ParseOf(BytesOf(steps)).tokens;
    NothingYet();
    assert [] + BytesOf(steps) == BytesOf(steps);
    FewLinesKept(start, steps);
    relay := PrintsAll(steps);
    relay.PrintedText();
    RunStream(start, steps);
    AllAccepted(tokens, relay.kept);
    LinesAsText(tokens, relay.kept);
  }

  lemma NothingYet()
    ensures Undropped(State([], [], 0, false, false, 0))
  {
  }

  lemma LinesAsText(ts: seq<Token>, kept: seq<bool>)
    requires |ts| == |kept| && forall i :: 0 <= i < |kept| ==> kept[i]
    ensures PlainLines(FROM_UART0, Accepted(ts, kept)) == UartLines(ts)
  {
    hide Accepted, Ascii;
    AllAccepted(ts, kept);
  }

  /** One line, which may start with any byte, but not contain a line's end after that. */
  method OneLinePrinted(text: seq<byte>, end: byte) returns (relay: Relay)
    requires text != [] && 0 !in text && (end == 13 || end == 10)
    requires forall i :: 1 <= i < |text| ==> text[i] != 13 && text[i] != 10
    ensures relay.printed == Ascii("From Uart0: ") + (if |text| <= 31 then text else text[..31]) + [13, 10]
  {
    hide ParseOf, Ascii;
    OneLine(text, end);
    assert BytesOf([Batch(text + [end])]) == text + [end] by {
      assert [Batch(text + [end])][..0] == [];
    }
    relay := FewLinesPrinted([Batch(text + [end])]);
    assert UartLines([Token(text, end)]) == [UartLine(text)];
    FlatOne(UartLine(text));
  }

  lemma OneLine(text: seq<byte>, end: byte)
    requires text != [] && (end == 13 || end == 10)
    requires forall i :: 1 <= i < |text| ==> text[i] != 13 && text[i] != 10
    ensures ParseOf(text + [end]) == Parse([Token(text, end)], [])
  {
    hide ParseOf;
    var ts := [Token(text, end)];
    assert Render(ts) == text + [end] by {
      assert ts[1..] == [] && Render(ts[1..]) == [];
    }
    ParseIff(text + [end], ts, []);
  }
}
