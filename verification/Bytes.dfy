/** Bytes, byte streams and the option type shared by the two UART models. */
module Bytes {

  type byte = b: int | 0 <= b < 256

  const CR: byte := 13
  const LF: byte := 10
  const NUL: byte := 0

  predicate IsLineEnd(c: byte) {
    c == CR || c == LF
  }

  /** The bytes of a text in ASCII. */
  function Ascii(text: string): seq<byte> {
    seq(|text|, i requires 0 <= i < |text| => if text[i] as int < 128 then text[i] as int else 63)
  }

  datatype Option<+T> = None | Some(value: T)

  /** An optional value as a sequence of at most one element. */
  function Opt<T>(o: Option<T>): seq<T> {
    match o
    case None => []
    case Some(x) => [x]
  }

  /** The pieces of `ss`, one after the other. */
  function Flat(ss: seq<seq<byte>>): seq<byte> {
    if ss == [] then [] else ss[0] + Flat(ss[1..])
  }

  lemma {:induction false} FlatConcat(a: seq<seq<byte>>, b: seq<seq<byte>>)
    ensures Flat(a + b) == Flat(a) + Flat(b)
  {
    if a == [] {
      assert a + b == b;
    } else {
      var t := a[1..];
      assert (a + b)[1..] == t + b;
      assert Flat(a + b) == a[0] + Flat(t + b);
      FlatConcat(t, b);
      hide Flat;
      assert a[0] + (Flat(t) + Flat(b)) == (a[0] + Flat(t)) + Flat(b);
    }
  }

  lemma FlatOne(s: seq<byte>)
    ensures Flat([s]) == s
  {
    assert [s][1..] == [];
    assert Flat([s][1..]) == [];
  }

  lemma FlatSnoc(a: seq<seq<byte>>, s: seq<byte>)
    ensures Flat(a + [s]) == Flat(a) + s
  {
    FlatConcat(a, [s]);
    FlatOne(s);
  }

  /** The value a 16-bit unsigned field keeps of `x`. */
  function U16(x: nat): nat {
    x % 0x1_0000
  }

  lemma U16Fits(x: nat)
    requires x <= 0xffff
    ensures U16(x) == x
  {
  }
}
