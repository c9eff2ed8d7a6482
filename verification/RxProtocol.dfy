/** The receive half of Zephyr's asynchronous UART API as a protocol on events:
  a monitor that accepts a history exactly when buffers are used as the API
  promises, and what acceptance means for the history as a whole. */
module RxProtocol {
  import opened Bytes

  /** `Supplied` is a buffer given by rx_enable or rx_buf_rsp; the others are
    the events the driver reports. */
  datatype RxEvent =
    | Supplied(buf: nat)
    | Ready(buf: nat, offset: nat, len: nat)
    | Released(buf: nat)
    | Disabled

  /** A buffer the driver holds, and how much of it has been reported. */
  datatype Slot = Slot(buf: nat, notified: nat)

  predicate Holds(q: seq<Slot>, b: nat) {
    exists i :: 0 <= i < |q| && q[i].buf == b
  }

  /** One event, seen by a driver holding the buffers `q`, oldest first. */
  function Accept(q: seq<Slot>, e: RxEvent, size: nat): Option<seq<Slot>> {
    match e
    case Supplied(b) =>
      if |q| < 2 && !Holds(q, b) then Some(q + [Slot(b, 0)]) else None
    case Ready(b, off, n) =>
      if q != [] && q[0].buf == b && q[0].notified == off && 0 < n && off + n <= size
      then Some([Slot(b, off + n)] + q[1..]) else None
    case Released(b) =>
      if q != [] && q[0].buf == b then Some(q[1..]) else None
    case Disabled =>
      if q == [] then Some(q) else None
  }

  /** The buffers held after the history `es`; None when an event broke the protocol. */
  function Monitor(es: seq<RxEvent>, size: nat): Option<seq<Slot>> {
    if es == [] then Some([])
    else match Monitor(es[..|es| - 1], size)
         case None => None
         case Some(q) => Accept(q, es[|es| - 1], size)
  }

  lemma MonitorSnoc(es: seq<RxEvent>, e: RxEvent, size: nat)
    requires Monitor(es, size).Some?
    ensures Monitor(es + [e], size) == Accept(Monitor(es, size).value, e, size)
  {
    assert (es + [e])[..|es|] == es;
  }

  lemma {:induction false} MonitorPrefix(es: seq<RxEvent>, k: nat, size: nat)
    requires k <= |es| && Monitor(es, size).Some?
    ensures Monitor(es[..k], size).Some?
    decreases |es|
  {
    if k == |es| {
      assert es[..k] == es;
    } else {
      var init := es[..|es| - 1];
      MonitorPrefix(init, k, size);
      assert init[..k] == es[..k];
    }
  }

  /** Buffers in the order they were supplied. */
  function Supplies(es: seq<RxEvent>): seq<nat> {
    if es == [] then []
    else Supplies(es[..|es| - 1]) + (match es[|es| - 1] case Supplied(b) => [b] case _ => [])
  }

  /** Buffers in the order they were released. */
  function Releases(es: seq<RxEvent>): seq<nat> {
    if es == [] then []
    else Releases(es[..|es| - 1]) + (match es[|es| - 1] case Released(b) => [b] case _ => [])
  }

  function Bufs(q: seq<Slot>): seq<nat> {
    seq(|q|, i requires 0 <= i < |q| => q[i].buf)
  }

  /** Every supplied buffer is released at most once, in supply order, and what
    is not yet released is what the driver holds. */
  lemma {:induction false} ReleasedInSupplyOrder(es: seq<RxEvent>, size: nat)
    requires Monitor(es, size).Some?
    ensures Supplies(es) == Releases(es) + Bufs(Monitor(es, size).value)
  {
    if es != [] {
      var init, e := es[..|es| - 1], es[|es| - 1];
      ReleasedInSupplyOrder(init, size);
      var q := Monitor(init, size).value;
      var q' := Monitor(es, size).value;
      match e
      case Supplied(b) => assert Bufs(q') == Bufs(q) + [b];
      case Ready(b, off, n) => assert Bufs(q') == Bufs(q);
      case Released(b) => assert Bufs(q) == [b] + Bufs(q');
      case Disabled =>
    }
  }

  /** Bytes reported for `b` since it was last supplied. */
  function Reported(es: seq<RxEvent>, b: nat): nat {
    if es == [] then 0
    else match es[|es| - 1]
         case Supplied(c) => if c == b then 0 else Reported(es[..|es| - 1], b)
         case Ready(c, _, n) => (if c == b then n else 0) + Reported(es[..|es| - 1], b)
         case _ => Reported(es[..|es| - 1], b)
  }

  predicate Distinct(q: seq<Slot>) {
    forall i, j :: 0 <= i < j < |q| ==> q[i].buf != q[j].buf
  }

  lemma {:induction false} SlotsCountReports(es: seq<RxEvent>, size: nat)
    requires Monitor(es, size).Some?
    ensures Distinct(Monitor(es, size).value)
    ensures forall s :: s in Monitor(es, size).value ==> s.notified == Reported(es, s.buf)
  {
    if es != [] {
      var init, e := es[..|es| - 1], es[|es| - 1];
      SlotsCountReports(init, size);
      var q := Monitor(init, size).value;
      match e
      case Supplied(b) =>
        forall s | s in q ensures s.buf != b {
          var i :| 0 <= i < |q| && q[i] == s;
        }
      case Ready(b, off, n) =>
        assert q[0] in q;
        forall s | s in q[1..] ensures s.buf != b && s in q {
          var i :| 0 <= i < |q[1..]| && q[1..][i] == s;
          assert q[i + 1] == s;
        }
      case Released(b) =>
      case Disabled =>
    }
  }

  /** The reports of a buffer tile it from offset 0: each starts where the
    previous ones ended, is not empty and stays inside the buffer. */
  lemma ReportsTile(es: seq<RxEvent>, i: nat, size: nat)
    requires Monitor(es, size).Some? && i < |es| && es[i].Ready?
    ensures es[i].offset == Reported(es[..i], es[i].buf)
    ensures 0 < es[i].len && es[i].offset + es[i].len <= size
  {
    MonitorPrefix(es, i + 1, size);
    MonitorPrefix(es, i, size);
    assert es[..i + 1][..i] == es[..i];
    SlotsCountReports(es[..i], size);
    var q := Monitor(es[..i], size).value;
    assert q[0] in q;
  }

  /** From `from` on, only buffers filled to their last byte are reported. */
  predicate FullReports(es: seq<RxEvent>, from: nat, size: nat) {
    forall k :: from <= k < |es| && es[k].Ready? ==> es[k].offset + es[k].len == size
  }

  /** From `from` on, that holds of every report but the last. */
  predicate LateReport(es: seq<RxEvent>, from: nat, size: nat) {
    forall k, l :: from <= k < l < |es| && es[k].Ready? && es[l].Ready? ==> es[k].offset + es[k].len == size
  }

  predicate NoReport(es: seq<RxEvent>) {
    forall k :: 0 <= k < |es| ==> !es[k].Ready?
  }

  lemma ReportThenNone(es: seq<RxEvent>, e: RxEvent, tail: seq<RxEvent>, from: nat, size: nat)
    requires FullReports(es, from, size) && NoReport(tail)
    ensures LateReport(es + [e] + tail, from, size)
    ensures e.Ready? && e.offset + e.len == size ==> FullReports(es + [e] + tail, from, size)
    ensures FullReports(es + tail, from, size)
  {
    assert forall k :: |es| < k < |es + [e] + tail| ==> (es + [e] + tail)[k] == tail[k - |es| - 1];
    assert forall k :: |es| <= k < |es + tail| ==> (es + tail)[k] == tail[k - |es|];
  }

  /** A buffer the driver has given back is not mentioned again until it is supplied again. */
  lemma {:induction false} SilentAfterRelease(es: seq<RxEvent>, i: nat, j: nat, b: nat, size: nat)
    requires Monitor(es, size).Some? && i < j < |es|
    requires es[i] == Released(b) && (es[j].Ready? || es[j].Released?) && es[j].buf == b
    ensures exists k :: i < k < j && es[k] == Supplied(b)
  {
    MonitorPrefix(es, j + 1, size);
    assert es[..j + 1][..j] == es[..j];
    var q := Monitor(es[..j], size).value;
    assert q[0].buf == b && Holds(q, b);
    if forall k :: i < k < j ==> es[k] != Supplied(b) {
      NotHeldUnlessSupplied(es, i, j, b, size);
      assert false;
    }
  }

  lemma {:induction false} NotHeldUnlessSupplied(es: seq<RxEvent>, i: nat, j: nat, b: nat, size: nat)
    requires Monitor(es, size).Some? && i < j <= |es| && es[i] == Released(b)
    requires forall k :: i < k < j ==> es[k] != Supplied(b)
    ensures Monitor(es[..j], size).Some? && !Holds(Monitor(es[..j], size).value, b)
    decreases j
  {
    MonitorPrefix(es, j, size);
    assert es[..j][..j - 1] == es[..j - 1];
    SlotsCountReports(es[..j - 1], size);
    var q := Monitor(es[..j - 1], size).value;
    if j - 1 > i {
      NotHeldUnlessSupplied(es, i, j - 1, b, size);
      OnlySupplyAdds(q, es[j - 1], b, size);
    }
  }

  lemma OnlySupplyAdds(q: seq<Slot>, e: RxEvent, b: nat, size: nat)
    requires Accept(q, e, size).Some?
    ensures Holds(Accept(q, e, size).value, b) ==> Holds(q, b) || e == Supplied(b)
  {
    var q' := Accept(q, e, size).value;
    if Holds(q', b) {
      var n :| 0 <= n < |q'| && q'[n].buf == b;
      assert e.Released? ==> q[n + 1].buf == b;
      assert e.Ready? || e.Disabled? ==> q[n].buf == b;
    }
  }
}
