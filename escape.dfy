/**
 * The quote escaper: escapeBytesQuotes and escapeStringQuotes copy a payload into the buffer
 * with every single quote doubled. `Escape` states what they write; the lemmas say what that
 * means for a reader of the resulting SQL literal.
 */
module Escape {
  import opened Bytes
  import opened Errors
  import opened Buffer

  /** The payload with every `'` written as `''` and every other byte copied, in order. */
  function Escape(v: seq<byte>): seq<byte>
  {
    if v == [] then []
    else (if v[0] == Quote then [Quote, Quote] else [v[0]]) + Escape(v[1..])
  }

  /** The number of `'` bytes in `s`. */
  function QuoteCount(s: seq<byte>): nat
  {
    CountByte(s, Quote)
  }

  /** Collapses every `''` pair back to `'`; a lone `'` is not something Escape can produce. */
  function Unescape(e: seq<byte>): Option<seq<byte>>
  {
    if e == [] then Some([])
    else if e[0] != Quote then
      match Unescape(e[1..])
      case Some(v) => Some([e[0]] + v)
      case None => None
    else if |e| >= 2 && e[1] == Quote then
      match Unescape(e[2..])
      case Some(v) => Some([Quote] + v)
      case None => None
    else None
  }

  /**
   * How SQL reads the body of a quoted literal that starts right after its opening `'`:
   * `''` stands for one quote and the first lone `'` closes the literal. The result is the
   * literal's value and the text after the closing quote; None when the literal never closes.
   */
  function ReadQuoted(s: seq<byte>): Option<(seq<byte>, seq<byte>)>
  {
    if s == [] then None
    else if s[0] != Quote then
      match ReadQuoted(s[1..])
      case Some((v, rest)) => Some(([s[0]] + v, rest))
      case None => None
    else if |s| >= 2 && s[1] == Quote then
      match ReadQuoted(s[2..])
      case Some((v, rest)) => Some(([Quote] + v, rest))
      case None => None
    else Some(([], s[1..]))
  }

  lemma {:induction false} EscapeAppend(a: seq<byte>, b: seq<byte>)
    ensures Escape(a + b) == Escape(a) + Escape(b)
  {
    if a == [] {
      assert a + b == b;
    } else {
      assert (a + b)[1..] == a[1..] + b;
      EscapeAppend(a[1..], b);
    }
  }

  /** The escaped payload is the payload plus one byte per quote: between |v| and 2*|v| bytes. */
  lemma {:induction false} EscapeLength(v: seq<byte>)
    ensures |Escape(v)| == |v| + QuoteCount(v)
    ensures |v| <= |Escape(v)| <= 2 * |v|
  {
    if v != [] {
      EscapeLength(v[1..]);
    }
  }

  /** Escaping exactly doubles the number of quotes. */
  lemma {:induction false} EscapeDoublesQuotes(v: seq<byte>)
    ensures QuoteCount(Escape(v)) == 2 * QuoteCount(v)
  {
    if v != [] {
      var head: seq<byte> := if v[0] == Quote then [Quote, Quote] else [v[0]];
      CountByteAppend(head, Escape(v[1..]), Quote);
      EscapeDoublesQuotes(v[1..]);
    }
  }

  /** Round trip: collapsing the `''` pairs of the escaped payload gives the payload back. */
  lemma {:induction false} UnescapeEscape(v: seq<byte>)
    ensures Unescape(Escape(v)) == Some(v)
  {
    if v != [] {
      UnescapeEscape(v[1..]);
      var e := Escape(v);
      if v[0] == Quote {
        assert e[2..] == Escape(v[1..]);
      } else {
        assert e[1..] == Escape(v[1..]);
      }
      assert [v[0]] + v[1..] == v;
    }
  }

  /** The other direction: every text Unescape accepts is the escaping of what it returns. */
  lemma {:induction false} EscapeUnescape(e: seq<byte>, v: seq<byte>)
    requires Unescape(e) == Some(v)
    ensures Escape(v) == e
    decreases |e|
  {
    if e != [] {
      if e[0] != Quote {
        var w := Unescape(e[1..]).value;
        EscapeUnescape(e[1..], w);
        assert v[1..] == w;
        assert [e[0]] + e[1..] == e;
      } else {
        var w := Unescape(e[2..]).value;
        EscapeUnescape(e[2..], w);
        assert v[1..] == w;
        assert [Quote, Quote] + e[2..] == e;
      }
    }
  }

  /**
   * Injection safety: a payload escaped and followed by the closing quote reads back as exactly
   * that payload, and the reader resumes at the text after the closing quote. This holds for any
   * following text that does not itself start with a quote.
   */
  lemma {:induction false} EscapedLiteralCloses(v: seq<byte>, rest: seq<byte>)
    requires rest == [] || rest[0] != Quote
    ensures ReadQuoted(Escape(v) + [Quote] + rest) == Some((v, rest))
  {
    var s := Escape(v) + [Quote] + rest;
    if v == [] {
      assert s == [Quote] + rest;
      assert s[1..] == rest;
    } else {
      EscapedLiteralCloses(v[1..], rest);
      if v[0] == Quote {
        assert s[2..] == Escape(v[1..]) + [Quote] + rest;
      } else {
        assert s[1..] == Escape(v[1..]) + [Quote] + rest;
      }
      assert [v[0]] + v[1..] == v;
    }
  }

  /** Reading through an escaped payload: the payload comes first, then what `s` reads as. */
  lemma {:induction false} ReadAfterEscape(v: seq<byte>, s: seq<byte>, w: seq<byte>, rest: seq<byte>)
    requires ReadQuoted(s) == Some((w, rest))
    ensures ReadQuoted(Escape(v) + s) == Some((v + w, rest))
  {
    var x := Escape(v) + s;
    if v == [] {
      assert x == s && v + w == w;
    } else {
      var y := Escape(v[1..]) + s;
      ReadAfterEscape(v[1..], s, w, rest);
      if v[0] == Quote {
        assert x[0] == Quote && x[1] == Quote && x[2..] == y;
      } else {
        assert x[0] == v[0] && x[1..] == y;
      }
      assert ReadQuoted(x) == Some(([v[0]] + (v[1..] + w), rest));
      FirstThenRest(v, w);
    }
  }

  lemma FirstThenRest(v: seq<byte>, w: seq<byte>)
    requires v != []
    ensures [v[0]] + (v[1..] + w) == v + w
  {
    assert [v[0]] + v[1..] == v;
  }

  /** One escaped byte in front of a text adds that byte in front of its reading. */
  lemma ReadOneByte(c: byte, t: seq<byte>, x: seq<byte>, rest: seq<byte>)
    requires ReadQuoted(t) == Some((x, rest))
    ensures ReadQuoted((if c == Quote then [Quote, Quote] else [c]) + t) == Some(([c] + x, rest))
  {
    var e := (if c == Quote then [Quote, Quote] else [c]) + t;
    if c == Quote {
      assert e[2..] == t;
    } else {
      assert e[1..] == t;
    }
  }

  /**
   * Two quoted literals written back to back, as a query with `??` produces them, read as ONE
   * literal holding both payloads joined by a quote; it still closes at the last closing quote.
   */
  lemma AdjacentLiteralsMerge(v: seq<byte>, w: seq<byte>, rest: seq<byte>)
    requires rest == [] || rest[0] != Quote
    ensures ReadQuoted(Escape(v) + [Quote, Quote] + Escape(w) + [Quote] + rest) == Some((v + [Quote] + w, rest))
  {
    var tail := Escape(w) + [Quote] + rest;
    EscapedLiteralCloses(w, rest);
    ReadOneByte(Quote, tail, w, rest);
    ReadAfterEscape(v, [Quote, Quote] + tail, [Quote] + w, rest);
    Regroup(Escape(v), [Quote, Quote], Escape(w), [Quote], rest);
    assert v + ([Quote] + w) == v + [Quote] + w;
  }

  /**
   * A placeholder inside a quoted literal of the query, as in `'?'`: the query's own quote is
   * closed by the argument's opening quote, so the escaped payload after it is read as SQL text,
   * not as part of any literal.
   */
  lemma QuoteBeforePlaceholder(v: seq<byte>, rest: seq<byte>)
    requires v != [] && v[0] != Quote
    ensures ReadQuoted([Quote] + Escape(v) + [Quote] + rest) == Some(([], Escape(v) + [Quote] + rest))
  {
    var e := Escape(v);
    assert e == [v[0]] + Escape(v[1..]);
    var s := [Quote] + e + [Quote] + rest;
    assert s[0] == Quote && s[1] == v[0];
    assert s[1..] == e + [Quote] + rest;
  }

  lemma Regroup(a: seq<byte>, b: seq<byte>, c: seq<byte>, d: seq<byte>, e: seq<byte>)
    ensures a + b + c + d + e == a + (b + (c + d + e))
  {
  }

  /**
   * The body of both escape loops: writes `c` at the cursor `pos`, twice when it is a quote,
   * and returns the advanced cursor.
   */
  method PutEscaped(buf: array<byte>, pos: nat, c: byte) returns (next: nat)
    requires pos + 2 <= buf.Length
    modifies buf
    ensures pos < next <= pos + 2 && next == pos + |Escape([c])|
    ensures buf[..next] == old(buf[..pos]) + Escape([c])
  {
    assert [c][1..] == [];
    if c == Quote {
      buf[pos] := Quote;
      buf[pos + 1] := Quote;
      next := pos + 2;
    } else {
      buf[pos] := c;
      next := pos + 1;
    }
  }

  /** One more byte of the payload: its escaping extends the text written so far. */
  lemma EscapeNext(v: seq<byte>, i: nat, prefix: seq<byte>)
    requires i < |v|
    ensures prefix + Escape(v[..i]) + Escape([v[i]]) == prefix + Escape(v[..i + 1])
  {
    EscapeAppend(v[..i], [v[i]]);
    assert v[..i + 1] == v[..i] + [v[i]];
  }

  /**
   * escapeBytesQuotes: reserves 2*|v| bytes, then copies `v` through the cursor `pos` with
   * every quote doubled, and finally truncates the buffer to `pos`.
   */
  method EscapeBytesQuotes(b: ByteBuf, v: seq<byte>)
    requires b.Valid()
    modifies b, b.data
    ensures b.Valid() && b.Contents() == old(b.Contents()) + Escape(v)
    ensures b.data == old(b.data) || fresh(b.data)
  {
    var pos: nat := b.len;
    b.Reserve(|v| * 2);
    var buf := b.data;
    for i := 0 to |v|
      modifies buf
      invariant b.len <= buf.Length && pos + 2 * (|v| - i) <= b.len  // the cursor stays in the reserved length
      invariant buf[..pos] == old(b.Contents()) + Escape(v[..i])
    {
      EscapeNext(v, i, old(b.Contents()));
      pos := PutEscaped(buf, pos, v[i]);
    }
    assert v[..|v|] == v;
    b.len := pos;
  }

  /** escapeStringQuotes: the same copy, over a string indexed byte by byte. */
  method EscapeStringQuotes(b: ByteBuf, v: seq<byte>)
    requires b.Valid()
    modifies b, b.data
    ensures b.Valid() && b.Contents() == old(b.Contents()) + Escape(v)
    ensures b.data == old(b.data) || fresh(b.data)
  {
    var pos: nat := b.len;
    b.Reserve(|v| * 2);
    var buf := b.data;
    var i := 0;
    while i < |v|
      modifies buf
      invariant 0 <= i <= |v|
      invariant b.len <= buf.Length && pos + 2 * (|v| - i) <= b.len  // the cursor stays in the reserved length
      invariant buf[..pos] == old(b.Contents()) + Escape(v[..i])
    {
      EscapeNext(v, i, old(b.Contents()));
      pos := PutEscaped(buf, pos, v[i]);
      i := i + 1;
    }
    assert v[..|v|] == v;
    b.len := pos;
  }
}
