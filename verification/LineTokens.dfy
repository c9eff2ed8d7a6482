/** The line format of the dual UART relay as a grammar, and the automaton that parses it. */
module LineTokens {
  import opened Bytes

  /** The text of a line and the CR or LF that ends it. */
  datatype Token = Token(text: seq<byte>, end: byte)

  /** Any byte, a line end included, and then no line end. */
  predicate IsText(t: seq<byte>) {
    t != [] && forall i :: 1 <= i < |t| ==> !IsLineEnd(t[i])
  }

  predicate IsToken(t: Token) {
    IsText(t.text) && IsLineEnd(t.end)
  }

  function Render(ts: seq<Token>): seq<byte> {
    if ts == [] then [] else ts[0].text + [ts[0].end] + Render(ts[1..])
  }

  /** `s` is the tokens `ts` followed by the unfinished text `rest`. */
  predicate Parses(s: seq<byte>, ts: seq<Token>, rest: seq<byte>) {
    && (forall i :: 0 <= i < |ts| ==> IsToken(ts[i]))
    && (rest == [] || IsText(rest))
    && s == Render(ts) + rest
  }

  lemma {:induction false} RenderSnoc(ts: seq<Token>, t: Token)
    ensures Render(ts + [t]) == Render(ts) + t.text + [t.end]
  {
    if ts == [] {
      assert [t][1..] == [];
      assert ts + [t] == [t];
      assert Render([t][1..]) == [];
    } else {
      RenderSnoc(ts[1..], t);
      assert (ts + [t])[1..] == ts[1..] + [t];
    }
  }

  /** A stream has at most one parse. */
  lemma {:induction false} ParseUnique(s: seq<byte>, ts: seq<Token>, rest: seq<byte>, ts': seq<Token>, rest': seq<byte>)
    requires Parses(s, ts, rest) && Parses(s, ts', rest')
    ensures ts == ts' && rest == rest'
    decreases |ts|
  {
    if ts == [] && ts' == [] {
      assert s == rest == rest';
    } else if ts == [] {
      EndInside(s, ts', rest');
    } else if ts' == [] {
      EndInside(s, ts, rest);
    } else {
      FirstTokens(s, ts, rest, ts', rest');
      var n := |ts[0].text| + 1;
      assert s[n..] == Render(ts[1..]) + rest;
      assert s[n..] == Render(ts'[1..]) + rest';
      ParseUnique(s[n..], ts[1..], rest, ts'[1..], rest');
      assert ts == [ts[0]] + ts[1..] && ts' == [ts'[0]] + ts'[1..];
    }
  }

  /** The first token's end is the first line end behind the first byte. */
  lemma EndInside(s: seq<byte>, ts: seq<Token>, rest: seq<byte>)
    requires Parses(s, ts, rest) && ts != []
    ensures var n := |ts[0].text|;
      1 <= n < |s| && s[..n] == ts[0].text && s[n] == ts[0].end && IsLineEnd(s[n])
      && forall i :: 1 <= i < n ==> !IsLineEnd(s[i])
  {
    var n := |ts[0].text|;
    assert s == ts[0].text + ([ts[0].end] + Render(ts[1..]) + rest);
  }

  lemma FirstTokens(s: seq<byte>, ts: seq<Token>, rest: seq<byte>, ts': seq<Token>, rest': seq<byte>)
    requires Parses(s, ts, rest) && Parses(s, ts', rest') && ts != [] && ts' != []
    ensures ts[0] == ts'[0]
  {
    EndInside(s, ts, rest);
    EndInside(s, ts', rest');
  }

  /** The parse found so far: complete tokens and the unfinished text. */
  datatype Parse = Parse(tokens: seq<Token>, rest: seq<byte>)

  /** One byte more. A line end finishes a token only if there is something to finish. */
  function Feed(p: Parse, c: byte): Parse {
    if IsLineEnd(c) && p.rest != [] then Parse(p.tokens + [Token(p.rest, c)], [])
    else Parse(p.tokens, p.rest + [c])
  }

  function ParseOf(s: seq<byte>): Parse {
    if s == [] then Parse([], []) else Feed(ParseOf(s[..|s| - 1]), s[|s| - 1])
  }

  lemma ParseSnoc(s: seq<byte>, c: byte)
    ensures ParseOf(s + [c]) == Feed(ParseOf(s), c)
  {
    assert (s + [c])[..|s|] == s;
  }

  /** The automaton finds the parse every stream has. */
  lemma {:induction false} ParseExists(s: seq<byte>)
    ensures Parses(s, ParseOf(s).tokens, ParseOf(s).rest)
  {
    if s != [] {
      var init, c := s[..|s| - 1], s[|s| - 1];
      ParseExists(init);
      var p := ParseOf(init);
      assert s == init + [c];
      if IsLineEnd(c) && p.rest != [] {
        RenderSnoc(p.tokens, Token(p.rest, c));
        assert Render(p.tokens) + p.rest + [c] == Render(p.tokens + [Token(p.rest, c)]) + [];
      } else {
        assert Render(p.tokens) + p.rest + [c] == Render(p.tokens) + (p.rest + [c]);
      }
    }
  }

  lemma ParseIff(s: seq<byte>, ts: seq<Token>, rest: seq<byte>)
    ensures Parses(s, ts, rest) <==> ParseOf(s) == Parse(ts, rest)
  {
    ParseExists(s);
    if Parses(s, ts, rest) {
      ParseUnique(s, ts, rest, ParseOf(s).tokens, ParseOf(s).rest);
    }
  }

  /** A batch is fed byte by byte to whatever the batches before it left. */
  function FeedBatch(p: Parse, batch: seq<byte>): Parse {
    if batch == [] then p else Feed(FeedBatch(p, batch[..|batch| - 1]), batch[|batch| - 1])
  }

  function FeedBatches(batches: seq<seq<byte>>): Parse {
    if batches == [] then Parse([], [])
    else FeedBatch(FeedBatches(batches[..|batches| - 1]), batches[|batches| - 1])
  }

  lemma {:induction false} BatchFed(s: seq<byte>, batch: seq<byte>)
    ensures FeedBatch(ParseOf(s), batch) == ParseOf(s + batch)
  {
    if batch == [] {
      assert s + batch == s;
    } else {
      var init, c := batch[..|batch| - 1], batch[|batch| - 1];
      BatchFed(s, init);
      assert s + batch == (s + init) + [c];
      ParseSnoc(s + init, c);
    }
  }

  lemma {:induction false} BatchesFed(batches: seq<seq<byte>>)
    ensures FeedBatches(batches) == ParseOf(Flat(batches))
  {
    if batches != [] {
      var init, last := batches[..|batches| - 1], batches[|batches| - 1];
      BatchesFed(init);
      BatchFed(Flat(init), last);
      assert batches == init + [last];
      FlatSnoc(init, last);
    }
  }

  /** However a stream is cut into batches, what is found is its one parse. */
  lemma ParseInBatches(batches: seq<seq<byte>>, ts: seq<Token>, rest: seq<byte>)
    ensures Parses(Flat(batches), ts, rest) <==> FeedBatches(batches) == Parse(ts, rest)
  {
    BatchesFed(batches);
    ParseIff(Flat(batches), ts, rest);
  }

  /** A token's bytes were received. */
  lemma {:induction false} TokensFromStream(s: seq<byte>, c: byte)
    requires c !in s
    ensures forall i :: 0 <= i < |ParseOf(s).tokens| ==> c !in ParseOf(s).tokens[i].text
    ensures c !in ParseOf(s).rest
  {
    if s != [] {
      TokensFromStream(s[..|s| - 1], c);
    }
  }

  // ------------------------------------------------------------ messages

  /** Bytes of a message buffer. */
  const MSG_SIZE: nat := 32

  /** What fits a message buffer in front of the NUL. */
  function Clip(t: seq<byte>): seq<byte> {
    if |t| <= MSG_SIZE - 1 then t else t[..MSG_SIZE - 1]
  }

  lemma ClipGrows(t: seq<byte>, c: byte)
    ensures Clip(t + [c]) == if |t| < MSG_SIZE - 1 then Clip(t) + [c] else Clip(t)
  {
  }

  /** `m` is a message buffer that holds `t`; what is behind the NUL is left over from earlier lines. */
  predicate Holds(m: seq<byte>, t: seq<byte>) {
    |m| == MSG_SIZE && |t| < MSG_SIZE && m[..|t|] == t && m[|t|] == NUL
  }

  /** A C string: the bytes in front of the first NUL. */
  function CString(s: seq<byte>): seq<byte> {
    if s == [] || s[0] == NUL then [] else [s[0]] + CString(s[1..])
  }

  lemma {:induction false} CStringTo(s: seq<byte>, n: nat)
    requires n < |s| && s[n] == NUL && NUL !in s[..n]
    ensures CString(s) == s[..n]
  {
    if n > 0 {
      assert s[0] == s[..n][0];
      assert s[1..][..n - 1] == s[..n][1..];
      CStringTo(s[1..], n - 1);
      assert s[..n] == [s[0]] + s[1..][..n - 1];
    }
  }

  lemma {:induction false} CStringOfPrefix(s: seq<byte>, t: seq<byte>)
    requires |t| < |s| && s[..|t|] == t && s[|t|] == NUL
    ensures CString(s) == CString(t)
  {
    if t != [] {
      assert s[0] == s[..|t|][0] == t[0];
      assert s[1..][..|t| - 1] == s[..|t|][1..] == t[1..];
      CStringOfPrefix(s[1..], t[1..]);
    }
  }

  lemma {:induction false} CStringWhole(t: seq<byte>)
    requires NUL !in t
    ensures CString(t) == t
  {
    if t != [] {
      CStringWhole(t[1..]);
    }
  }
}
