/** The heap of equal blocks that both directions draw on, pointers into it,
  and who holds each block. */
module BlockHeap {
  import opened Bytes

  /** A C pointer: NULL, or a byte of the payload of a block. */
  datatype Pointer = Null | At(block: nat, off: nat)

  /** struct uart_data_t: the payload array and the bytes used in it. */
  datatype Block = Block(data: seq<byte>, len: nat)

  predicate Sized(mem: seq<Block>, blocks: nat, size: nat) {
    |mem| == blocks && forall b :: 0 <= b < blocks ==> |mem[b].data| == size && mem[b].len <= size
  }

  /** The used part of block `b`. */
  function Text(mem: seq<Block>, b: nat): seq<byte> {
    if b < |mem| && mem[b].len <= |mem[b].data| then mem[b].data[..mem[b].len] else []
  }

  function Texts(mem: seq<Block>, ids: seq<nat>): seq<seq<byte>> {
    seq(|ids|, i requires 0 <= i < |ids| => Text(mem, ids[i]))
  }

  predicate Loaded(mem: seq<Block>, ids: seq<nat>) {
    forall i :: 0 <= i < |ids| ==> ids[i] < |mem| && 0 < mem[ids[i]].len
  }

  /** Only block `b` differs. */
  ghost predicate OnlyBlock(mem: seq<Block>, mem': seq<Block>, b: nat) {
    |mem| == |mem'| && forall i :: 0 <= i < |mem| && i != b ==> mem[i] == mem'[i]
  }

  lemma TextsFrame(mem: seq<Block>, mem': seq<Block>, b: nat, ids: seq<nat>)
    requires OnlyBlock(mem, mem', b) && b !in ids
    ensures Texts(mem', ids) == Texts(mem, ids)
    ensures Loaded(mem, ids) ==> Loaded(mem', ids)
  {
    forall i | 0 <= i < |ids|
      ensures Text(mem', ids[i]) == Text(mem, ids[i])
      ensures ids[i] < |mem| ==> mem'[ids[i]] == mem[ids[i]]
    {
      assert ids[i] in ids;
    }
  }

  lemma TextsSnoc(mem: seq<Block>, ids: seq<nat>, b: nat)
    ensures Texts(mem, ids + [b]) == Texts(mem, ids) + [Text(mem, b)]
  {
  }

  /** `d` with `s` written at `off`. */
  function Overwrite(d: seq<byte>, off: nat, s: seq<byte>): (r: seq<byte>)
    requires off + |s| <= |d|
    ensures |r| == |d|
    ensures r[..off + |s|] == d[..off] + s
  {
    d[..off] + s + d[off + |s|..]
  }

  lemma OverwriteTwice(d: seq<byte>, s: seq<byte>, t: seq<byte>)
    requires |s| + |t| <= |d|
    ensures Overwrite(Overwrite(d, 0, s), |s|, t) == Overwrite(d, 0, s + t)
  {
  }

  // -------------------------------------------------------------- ownership

  /** All blocks of a heap of `n`. */
  function AllBlocks(n: nat): (s: set<nat>)
    ensures |s| == n && forall b: nat :: b in s <==> b < n
  {
    if n == 0 then {} else AllBlocks(n - 1) + {n - 1}
  }

  function Ref(p: Pointer): seq<nat> {
    if p.Null? then [] else [p.block]
  }

  function Single(o: Option<nat>): set<nat> {
    if o.Some? then {o.value} else {}
  }

  ghost function Holdings(cur: seq<nat>, next: seq<nat>, rxLine: seq<nat>, txLine: seq<nat>, free: set<nat>)
    : multiset<nat>
  {
    multiset(cur) + multiset(next) + multiset(rxLine) + multiset(txLine) + multiset(free)
  }

  /** Each of the `n` blocks is free or in exactly one place: the current or the
    next receive buffer, on its way to BLE, or on its way to the wire. */
  ghost predicate Owners(cur: seq<nat>, next: seq<nat>, rxLine: seq<nat>, txLine: seq<nat>, free: set<nat>, n: nat) {
    forall b: nat :: Holdings(cur, next, rxLine, txLine, free)[b] == if b < n then 1 else 0
  }

  lemma OwnersByCount(cur: seq<nat>, next: seq<nat>, rxLine: seq<nat>, txLine: seq<nat>, free: set<nat>, n: nat, b: nat)
    requires Owners(cur, next, rxLine, txLine, free, n)
    ensures multiset(cur)[b] + multiset(next)[b] + multiset(rxLine)[b] + multiset(txLine)[b] + multiset(free)[b]
         == if b < n then 1 else 0
  {
    assert Holdings(cur, next, rxLine, txLine, free)[b] == if b < n then 1 else 0;
  }

  lemma Separate(cur: seq<nat>, next: seq<nat>, rxLine: seq<nat>, txLine: seq<nat>, free: set<nat>, n: nat, b: nat)
    requires Owners(cur, next, rxLine, txLine, free, n)
    requires b in cur || b in next || b in rxLine || b in txLine || b in free
    ensures b < n
    ensures b in cur ==> b !in next && b !in rxLine && b !in txLine && b !in free
    ensures b in next ==> b !in rxLine && b !in txLine && b !in free
    ensures b in rxLine ==> b !in txLine && b !in free
    ensures b in txLine ==> b !in free
  {
    OwnersByCount(cur, next, rxLine, txLine, free, n, b);
  }

  lemma SameHoldings(cur: seq<nat>, next: seq<nat>, rxLine: seq<nat>, txLine: seq<nat>, free: set<nat>, n: nat,
                     cur': seq<nat>, next': seq<nat>, rxLine': seq<nat>, txLine': seq<nat>, free': set<nat>)
    requires Owners(cur, next, rxLine, txLine, free, n)
    requires Holdings(cur, next, rxLine, txLine, free) == Holdings(cur', next', rxLine', txLine', free')
    ensures Owners(cur', next', rxLine', txLine', free', n)
  {
  }

  lemma FreeToNext(cur: seq<nat>, rxLine: seq<nat>, txLine: seq<nat>, free: set<nat>, n: nat, b: nat)
    requires Owners(cur, [], rxLine, txLine, free, n) && b in free
    ensures Owners(cur, [b], rxLine, txLine, free - {b}, n)
  {
    assert multiset([b]) + multiset(free - {b}) == multiset(free);
    SameHoldings(cur, [], rxLine, txLine, free, n, cur, [b], rxLine, txLine, free - {b});
  }

  lemma CurrentToLine(b: nat, next: seq<nat>, rxLine: seq<nat>, txLine: seq<nat>, free: set<nat>, n: nat)
    requires Owners([b], next, rxLine, txLine, free, n)
    ensures Owners(next, [], rxLine + [b], txLine, free, n)
  {
    assert multiset(rxLine + [b]) == multiset(rxLine) + multiset([b]);
    SameHoldings([b], next, rxLine, txLine, free, n, next, [], rxLine + [b], txLine, free);
  }

  lemma CurrentToFree(b: nat, next: seq<nat>, rxLine: seq<nat>, txLine: seq<nat>, free: set<nat>, n: nat)
    requires Owners([b], next, rxLine, txLine, free, n)
    ensures Owners(next, [], rxLine, txLine, free + {b}, n)
  {
    Separate([b], next, rxLine, txLine, free, n, b);
    assert multiset(free + {b}) == multiset(free) + multiset([b]);
    SameHoldings([b], next, rxLine, txLine, free, n, next, [], rxLine, txLine, free + {b});
  }

  lemma LineToFree(cur: seq<nat>, next: seq<nat>, b: nat, rxLine: seq<nat>, txLine: seq<nat>, free: set<nat>, n: nat)
    requires Owners(cur, next, [b] + rxLine, txLine, free, n)
    ensures Owners(cur, next, rxLine, txLine, free + {b}, n)
  {
    assert b in [b] + rxLine;
    Separate(cur, next, [b] + rxLine, txLine, free, n, b);
    assert multiset(free + {b}) == multiset(free) + multiset([b]);
    assert multiset([b] + rxLine) == multiset([b]) + multiset(rxLine);
    SameHoldings(cur, next, [b] + rxLine, txLine, free, n, cur, next, rxLine, txLine, free + {b});
  }

  lemma SentToFree(cur: seq<nat>, next: seq<nat>, rxLine: seq<nat>, b: nat, txLine: seq<nat>, free: set<nat>, n: nat)
    requires Owners(cur, next, rxLine, [b] + txLine, free, n)
    ensures Owners(cur, next, rxLine, txLine, free + {b}, n)
  {
    assert b in [b] + txLine;
    Separate(cur, next, rxLine, [b] + txLine, free, n, b);
    assert multiset(free + {b}) == multiset(free) + multiset([b]);
    assert multiset([b] + txLine) == multiset([b]) + multiset(txLine);
    SameHoldings(cur, next, rxLine, [b] + txLine, free, n, cur, next, rxLine, txLine, free + {b});
  }

  /** A block taken for sending, put anywhere in the line. */
  lemma FreeToSend(cur: seq<nat>, next: seq<nat>, rxLine: seq<nat>, front: seq<nat>, back: seq<nat>, free: set<nat>,
                   n: nat, b: nat)
    requires Owners(cur, next, rxLine, front + back, free, n) && b in free
    ensures Owners(cur, next, rxLine, front + [b] + back, free - {b}, n)
  {
    assert multiset([b]) + multiset(free - {b}) == multiset(free);
    assert multiset(front + back) == multiset(front) + multiset(back);
    assert multiset(front + [b] + back) == multiset(front) + multiset([b]) + multiset(back);
    SameHoldings(cur, next, rxLine, front + back, free, n, cur, next, rxLine, front + [b] + back, free - {b});
  }

  /** Two blocks of an untouched heap, one to receive into and one to send. */
  lemma FirstBlocks(n: nat, r: nat, t: nat)
    requires r < n && t < n && r != t
    ensures Owners([], [r], [], [t], AllBlocks(n) - {r} - {t}, n)
    ensures |AllBlocks(n) - {r} - {t}| == n - 2
  {
    var none: seq<nat> := [];
    var all := AllBlocks(n);
    assert Owners(none, none, none, none, all, n);
    FreeToNext(none, none, none, all, n, r);
    assert none + none == none;
    FreeToSend(none, [r], none, none, none, all - {r}, n, t);
    assert none + [t] + none == [t];
  }

  function One(b: bool): nat {
    if b then 1 else 0
  }

  /** Every block is free or in exactly one place, and there only once. `raw` is a
    block taken from the heap that has yet to be filled. */
  lemma OnePlace(cur: seq<nat>, next: seq<nat>, ble: seq<nat>, fifoRx: seq<nat>, sending: seq<nat>, fifoTx: seq<nat>,
                 hand: seq<nat>, raw: Option<nat>, free: set<nat>, n: nat, b: nat)
    requires Owners(cur, next, ble + fifoRx, sending + (fifoTx + hand), free + Single(raw), n) && b < n
    requires Single(raw) !! free
    ensures One(b in cur) + One(b in next) + One(b in ble) + One(b in fifoRx) + One(b in sending) + One(b in fifoTx)
          + One(b in hand) + One(raw == Some(b)) + One(b in free) == 1
    ensures multiset(fifoRx)[b] <= 1 && multiset(fifoTx)[b] <= 1
  {
    OwnersByCount(cur, next, ble + fifoRx, sending + (fifoTx + hand), free + Single(raw), n, b);
    hide Owners;
    assert multiset(ble + fifoRx) == multiset(ble) + multiset(fifoRx);
    assert multiset(sending + (fifoTx + hand)) == multiset(sending) + multiset(fifoTx + hand);
    assert multiset(fifoTx + hand) == multiset(fifoTx) + multiset(hand);
    assert b in Single(raw) <==> raw == Some(b);
  }
}
