/**
 * interpolateParams: substitutes each `?` of a query with the SQL literal of the matching
 * argument and returns the finished statement, or an error.
 */
module Interpolate {
  import opened Bytes
  import opened Errors
  import opened Buffer
  import opened Escape
  import opened Decimal
  import opened Timestamp

  newtype int64 = x: int | -0x8000_0000_0000_0000 <= x < 0x8000_0000_0000_0000
  newtype uint64 = x: int | 0 <= x < 0x1_0000_0000_0000_0000

  /** An `interface{}` argument: one variant per case of the type switch, and Other for `default`. */
  datatype Arg =
    | Nil                          // the untyped nil
    | Int(n: int64)                // int, 64 bits wide
    | Int64(n64: int64)
    | Uint64(u64: uint64)
    | Float64(bits: uint64)        // a float64, by its IEEE-754 bit pattern
    | Bool(flag: bool)
    | Time(time: UtcTime)          // a time.Time, taken apart in UTC
    | RawJson(json: seq<byte>)     // json.RawMessage
    | NilByteSlice                 // a []byte that is nil
    | ByteSlice(bytes: seq<byte>)  // a []byte that is not nil
    | Str(str: seq<byte>)          // string
    | Other                        // a value of any other dynamic type

  const Null: seq<byte> := Ascii("NULL")
  const ZeroDate: seq<byte> := Ascii("'0000-00-00'")
  const BinaryPrefix: seq<byte> := Ascii("_binary'")
  const One: byte := '1' as int as byte

  /**
   * The literal one argument becomes, `argPos` being its 1-based position. Floats are
   * rendered by `formatFloat`, which stands for strconv.AppendFloat(…, 'g', -1, 64).
   */
  function EncodeArg(arg: Arg, argPos: nat, formatFloat: uint64 -> seq<byte>): Result<seq<byte>>
  {
    match arg
    case Nil => Ok(Null)
    case Int(v) => Ok(FormatInt(v as int))
    case Int64(v) => Ok(FormatInt(v as int))
    case Uint64(v) => Ok(FormatUint(v as int))
    case Float64(bits) => Ok(formatFloat(bits))
    case Bool(v) => Ok(if v then [One] else [Zero])
    case Time(v) =>
      if IsZero(v) then Ok(ZeroDate)
      else (match DateTimeText(v)
            case Ok(s) => Ok([Quote] + s + [Quote])
            case Err(e) => Err(e))
    case RawJson(v) => Ok([Quote] + Escape.Escape(v) + [Quote])
    case NilByteSlice => Ok(Null)
    case ByteSlice(v) => Ok(BinaryPrefix + Escape.Escape(v) + [Quote])
    case Str(v) => Ok([Quote] + Escape.Escape(v) + [Quote])
    case Other => Err(UnknownType(argPos))
  }

  /** Puts `prefix` in front of a successful result; an error stays as it is. */
  function Prepend(prefix: seq<byte>, r: Result<seq<byte>>): Result<seq<byte>>
  {
    match r
    case Ok(s) => Ok(prefix + s)
    case Err(e) => Err(e)
  }

  /** How the splicing below sees the encoding of one argument, given its 1-based position. */
  type Encoder = (Arg, nat) -> Result<seq<byte>>

  function ArgEncoder(formatFloat: uint64 -> seq<byte>): Encoder
  {
    (arg: Arg, argPos: nat) => EncodeArg(arg, argPos, formatFloat)
  }

  /**
   * The statement, byte by byte: every byte other than `?` is copied, and the k-th `?` becomes
   * the literal of args[k]; the first argument that cannot be encoded ends it with its error.
   * `argPos` counts the arguments consumed before `query`.
   */
  function Render(query: seq<byte>, args: seq<Arg>, argPos: nat, encode: Encoder): Result<seq<byte>>
    requires CountByte(query, Question) == |args|
    decreases |query|
  {
    if query == [] then Ok([])
    else if query[0] == Question then
      match encode(args[0], argPos + 1)
      case Err(e) => Err(e)
      case Ok(piece) => Prepend(piece, Render(query[1..], args[1..], argPos + 1, encode))
    else Prepend([query[0]], Render(query[1..], args, argPos, encode))
  }

  // ---------------------------------------------------------------------------------------
  // An independent description of the result: the query cut at its placeholders, with the
  // encoded arguments put between the pieces.

  /** The pieces of `query` between its `?` bytes, found with IndexByte as the loop does. */
  function Split(query: seq<byte>): (segs: seq<seq<byte>>)
    decreases |query|
  {
    var k := IndexByte(query, Question);
    if k == -1 then [query] else [query[..k]] + Split(query[k + 1..])
  }

  /** segs[0] + pieces[0] + segs[1] + pieces[1] + … + segs[n]. */
  function Interleave(segs: seq<seq<byte>>, pieces: seq<seq<byte>>): seq<byte>
    requires |segs| == |pieces| + 1
  {
    if pieces == [] then segs[0] else segs[0] + pieces[0] + Interleave(segs[1..], pieces[1..])
  }

  /** The literals of all arguments in order, or the error of the first one that has none. */
  function EncodeAll(args: seq<Arg>, argPos: nat, encode: Encoder): Result<seq<seq<byte>>>
  {
    if args == [] then Ok([])
    else match encode(args[0], argPos + 1)
      case Err(e) => Err(e)
      case Ok(piece) =>
        match EncodeAll(args[1..], argPos + 1, encode)
        case Err(e) => Err(e)
        case Ok(pieces) => Ok([piece] + pieces)
  }

  /** There is one more piece than placeholders, and no piece holds a `?`. */
  lemma SplitCount(query: seq<byte>)
    ensures |Split(query)| == CountByte(query, Question) + 1
    ensures forall k :: 0 <= k < |Split(query)| ==> Question !in Split(query)[k]
  {
    SplitLength(query);
    SplitPieces(query);
  }

  /** One `?` per placeholder, as the pieces that go back between the segments. */
  function Marks(n: nat): seq<seq<byte>>
  {
    seq(n, _ => [Question])
  }

  /** Putting the `?` bytes back between the pieces gives the query itself: Split loses nothing. */
  lemma {:induction false} SplitJoin(query: seq<byte>)
    ensures |Split(query)| == |Marks(CountByte(query, Question))| + 1
    ensures Interleave(Split(query), Marks(CountByte(query, Question))) == query
    decreases |query|
  {
    SplitLength(query);
    var k := IndexByte(query, Question);
    if k != -1 {
      var head, rest := query[..k], query[k + 1..];
      SplitJoin(rest);
      CountAroundPlaceholder(query, k);
      CountByteZero(head, Question);
      var n := CountByte(rest, Question);
      assert Split(query) == [head] + Split(rest);
      assert Marks(n + 1) == [[Question]] + Marks(n);
      InterleaveMark(head, Split(rest), Marks(n));
      JoinAround(query, k);
    } else {
      CountByteZero(query, Question);
      assert Marks(0) == [];
    }
  }

  /** A segment and a `?` in front of an interleaving. */
  lemma InterleaveMark(head: seq<byte>, segs: seq<seq<byte>>, marks: seq<seq<byte>>)
    requires |segs| == |marks| + 1
    ensures Interleave([head] + segs, [[Question]] + marks) == head + [Question] + Interleave(segs, marks)
  {
    assert ([head] + segs)[1..] == segs;
    assert ([[Question]] + marks)[1..] == marks;
  }

  /** The query is the text before its `?` at `k`, the `?`, and the text after it. */
  lemma JoinAround(query: seq<byte>, k: nat)
    requires k < |query| && query[k] == Question
    ensures query[..k] + [Question] + query[k + 1..] == query
  {
  }

  lemma {:induction false} SplitLength(query: seq<byte>)
    ensures |Split(query)| == CountByte(query, Question) + 1
    decreases |query|
  {
    var k := IndexByte(query, Question);
    if k != -1 {
      SplitLength(query[k + 1..]);
      CountAroundPlaceholder(query, k);
      CountByteZero(query[..k], Question);
    } else {
      CountByteZero(query, Question);
    }
  }

  lemma {:induction false} SplitPieces(query: seq<byte>)
    ensures forall k :: 0 <= k < |Split(query)| ==> Question !in Split(query)[k]
    decreases |query|
  {
    var k := IndexByte(query, Question);
    if k != -1 {
      var rest := query[k + 1..];
      SplitPieces(rest);
      var segs, tail := Split(query), Split(rest);
      assert segs == [query[..k]] + tail;
      forall j | 0 <= j < |segs| ensures Question !in segs[j] {
        if j > 0 {
          assert segs[j] == tail[j - 1];
        }
      }
    }
  }

  lemma CountAroundPlaceholder(query: seq<byte>, k: nat)
    requires k < |query| && query[k] == Question
    ensures CountByte(query, Question) == CountByte(query[..k], Question) + 1 + CountByte(query[k + 1..], Question)
  {
    var head, rest := query[..k], query[k + 1..];
    assert query == head + ([Question] + rest);
    CountByteAppend(head, [Question] + rest, Question);
    assert ([Question] + rest)[1..] == rest;
  }

  /** EncodeAll succeeds exactly when every argument encodes, and then lists their literals. */
  lemma {:induction false} EncodeAllOk(args: seq<Arg>, argPos: nat, encode: Encoder)
    ensures EncodeAll(args, argPos, encode).Ok? <==>
      forall k :: 0 <= k < |args| ==> encode(args[k], argPos + k + 1).Ok?
    ensures EncodeAll(args, argPos, encode).Ok? ==>
      |EncodeAll(args, argPos, encode).value| == |args| &&
      forall k :: 0 <= k < |args| ==>
        EncodeAll(args, argPos, encode).value[k] == encode(args[k], argPos + k + 1).value
  {
    if args != [] {
      EncodeAllOk(args[1..], argPos + 1, encode);
      if encode(args[0], argPos + 1).Ok? {
        forall k | 0 <= k < |args| - 1
          ensures encode(args[1..][k], argPos + 1 + k + 1) == encode(args[k + 1], argPos + (k + 1) + 1)
        {
        }
      }
    }
  }

  /** EncodeAll fails with the error of the first argument that cannot be encoded. */
  lemma {:induction false} EncodeAllFirstError(args: seq<Arg>, argPos: nat, encode: Encoder)
    requires EncodeAll(args, argPos, encode).Err?
    ensures exists k :: (0 <= k < |args| &&
      encode(args[k], argPos + k + 1) == Err(EncodeAll(args, argPos, encode).error) &&
      forall j :: 0 <= j < k ==> encode(args[j], argPos + j + 1).Ok?)
  {
    var e := EncodeAll(args, argPos, encode).error;
    if encode(args[0], argPos + 1).Ok? {
      EncodeAllFirstError(args[1..], argPos + 1, encode);
      var k :| 0 <= k < |args| - 1 &&
        encode(args[1..][k], argPos + 1 + k + 1) == Err(e) &&
        forall j :: 0 <= j < k ==> encode(args[1..][j], argPos + 1 + j + 1).Ok?;
      assert encode(args[k + 1], argPos + (k + 1) + 1) == Err(e);
      forall j | 0 <= j < k + 1 ensures encode(args[j], argPos + j + 1).Ok? {
        if j > 0 {
          assert args[j] == args[1..][j - 1];
        }
      }
    } else {
      assert encode(args[0], argPos + 0 + 1) == Err(e);
    }
  }

  lemma PrependAssoc(a: seq<byte>, b: seq<byte>, r: Result<seq<byte>>)
    ensures Prepend(a, Prepend(b, r)) == Prepend(a + b, r)
  {
    if r.Ok? {
      assert a + (b + r.value) == (a + b) + r.value;
    }
  }

  /** A text without placeholders is copied as it is. */
  lemma {:induction false} RenderLiteral(lit: seq<byte>, rest: seq<byte>, args: seq<Arg>, argPos: nat, encode: Encoder)
    requires Question !in lit && CountByte(rest, Question) == |args|
    ensures CountByte(lit + rest, Question) == |args|
    ensures Render(lit + rest, args, argPos, encode) == Prepend(lit, Render(rest, args, argPos, encode))
    decreases |lit|
  {
    CountByteAppend(lit, rest, Question);
    if lit == [] {
      assert lit + rest == rest;
      match Render(rest, args, argPos, encode)
      case Ok(s) => assert lit + s == s;
      case Err(_) =>
    } else {
      RenderLiteral(lit[1..], rest, args, argPos, encode);
      assert (lit + rest)[1..] == lit[1..] + rest;
      assert (lit + rest)[0] == lit[0];
      PrependAssoc([lit[0]], lit[1..], Render(rest, args, argPos, encode));
      assert [lit[0]] + lit[1..] == lit;
    }
  }

  /** The step the loop takes: the text before the next `?`, then that placeholder's literal. */
  lemma RenderStep(query: seq<byte>, k: nat, args: seq<Arg>, argPos: nat, encode: Encoder)
    requires CountByte(query, Question) == |args|
    requires k < |query| && query[k] == Question && Question !in query[..k]
    ensures |args| >= 1 && CountByte(query[k + 1..], Question) == |args| - 1
    ensures Render(query, args, argPos, encode) ==
      match encode(args[0], argPos + 1)
      case Err(e) => Err(e)
      case Ok(piece) => Prepend(query[..k] + piece, Render(query[k + 1..], args[1..], argPos + 1, encode))
  {
    assert query == query[..k] + query[k..];
    assert query[k..][1..] == query[k + 1..];
    CountByteAppend(query[..k], query[k..], Question);
    CountByteZero(query[..k], Question);
    RenderLiteral(query[..k], query[k..], args, argPos, encode);
    match encode(args[0], argPos + 1)
    case Err(e) =>
    case Ok(piece) =>
      PrependAssoc(query[..k], piece, Render(query[k + 1..], args[1..], argPos + 1, encode));
  }

  /**
   * The rendered statement is the query's pieces between placeholders, in order, with the
   * arguments' literals in between; it fails exactly when some argument cannot be encoded.
   */
  lemma {:induction false} RenderIsInterleave(query: seq<byte>, args: seq<Arg>, argPos: nat, encode: Encoder)
    requires CountByte(query, Question) == |args|
    ensures (SplitCount(query); EncodeAllOk(args, argPos, encode);
      Render(query, args, argPos, encode) ==
        match EncodeAll(args, argPos, encode)
        case Err(e) => Err(e)
        case Ok(pieces) => Ok(Interleave(Split(query), pieces)))
    decreases |query|
  {
    SplitCount(query);
    EncodeAllOk(args, argPos, encode);
    var k := IndexByte(query, Question);
    if k == -1 {
      assert args == [];
      assert query + [] == query;
      RenderLiteral(query, [], args, argPos, encode);
    } else {
      RenderStep(query, k, args, argPos, encode);
      RenderIsInterleave(query[k + 1..], args[1..], argPos + 1, encode);
      match encode(args[0], argPos + 1)
      case Err(e) =>
      case Ok(piece) =>
        match EncodeAll(args[1..], argPos + 1, encode)
        case Err(e) =>
        case Ok(pieces) =>
          assert Split(query)[1..] == Split(query[k + 1..]);
          assert ([piece] + pieces)[1..] == pieces;
          assert query[..k] + piece + Interleave(Split(query[k + 1..]), pieces)
              == query[..k] + (piece + Interleave(Split(query[k + 1..]), pieces));
    }
  }

  // ---------------------------------------------------------------------------------------
  /** When the encoder fails only with UnknownType or YearOutOfRange, so does Render. */
  lemma {:induction false} RenderErrors(query: seq<byte>, args: seq<Arg>, argPos: nat, encode: Encoder)
    requires CountByte(query, Question) == |args|
    requires forall a, p :: encode(a, p).Err? ==> encode(a, p).error.UnknownType? || encode(a, p).error.YearOutOfRange?
    ensures Render(query, args, argPos, encode).Err? ==>
      Render(query, args, argPos, encode).error.UnknownType? ||
      Render(query, args, argPos, encode).error.YearOutOfRange?
    decreases |query|
  {
    if query != [] {
      if query[0] == Question {
        RenderErrors(query[1..], args[1..], argPos + 1, encode);
      } else {
        RenderErrors(query[1..], args, argPos, encode);
      }
    }
  }

  // ---------------------------------------------------------------------------------------
  // Properties of interpolateParams.

  /** What interpolateParams returns: the arity check first, then the rendered statement. */
  function Interpolate(query: seq<byte>, args: seq<Arg>, formatFloat: uint64 -> seq<byte>): Result<seq<byte>>
  {
    if CountByte(query, Question) != |args| then Err(InvalidArgs)
    else Render(query, args, 0, ArgEncoder(formatFloat))
  }

  /**
   * ErrInvalidArgs is returned exactly when the number of `?` differs from the number of
   * arguments, and ErrInvalidParseArgs is never returned.
   */
  lemma Arity(query: seq<byte>, args: seq<Arg>, formatFloat: uint64 -> seq<byte>)
    ensures Interpolate(query, args, formatFloat) == Err(InvalidArgs) <==> CountByte(query, Question) != |args|
    ensures Interpolate(query, args, formatFloat) != Err(InvalidParseArgs)
  {
    if CountByte(query, Question) == |args| {
      var encode := ArgEncoder(formatFloat);
      forall a, p ensures encode(a, p).Err? ==> encode(a, p).error.UnknownType? || encode(a, p).error.YearOutOfRange? {
        EncodeArgErrors(a, p, formatFloat);
      }
      RenderErrors(query, args, 0, encode);
    }
  }

  /** An argument fails only as an unknown type at its own position or as a year out of range. */
  lemma EncodeArgErrors(arg: Arg, argPos: nat, formatFloat: uint64 -> seq<byte>)
    ensures EncodeArg(arg, argPos, formatFloat).Err? <==> arg.Other? || (arg.Time? && !IsZero(arg.time) && DateTimeText(arg.time).Err?)
    ensures EncodeArg(arg, argPos, formatFloat).Err? ==>
      EncodeArg(arg, argPos, formatFloat).error == (if arg.Other? then UnknownType(argPos) else DateTimeText(arg.time).error)
    ensures EncodeArg(arg, argPos, formatFloat).Err? ==>
      EncodeArg(arg, argPos, formatFloat).error.UnknownType? || EncodeArg(arg, argPos, formatFloat).error.YearOutOfRange?
  {
    if arg.Time? && !IsZero(arg.time) {
      YearRange(arg.time);
    }
  }

  /**
   * Success exactly when the counts agree and every argument can be encoded; the result is then
   * the query's text between placeholders, verbatim and in order (SplitJoin), with the k-th
   * literal in the k-th gap.
   */
  lemma InterpolateOk(query: seq<byte>, args: seq<Arg>, formatFloat: uint64 -> seq<byte>)
    ensures Interpolate(query, args, formatFloat).Ok? <==>
      CountByte(query, Question) == |args| &&
      forall k :: 0 <= k < |args| ==> EncodeArg(args[k], k + 1, formatFloat).Ok?
    ensures Interpolate(query, args, formatFloat).Ok? ==>
      var segs := Split(query);
      |segs| == |args| + 1 &&
      (forall k :: 0 <= k < |segs| ==> Question !in segs[k]) &&
      Interpolate(query, args, formatFloat).value ==
        Interleave(segs, seq(|args|, k requires 0 <= k < |args| => EncodeArg(args[k], k + 1, formatFloat).value))
  {
    var encode := ArgEncoder(formatFloat);
    SplitCount(query);
    if CountByte(query, Question) == |args| {
      RenderOk(query, args, encode);
      forall k | 0 <= k < |args| ensures encode(args[k], k + 1) == EncodeArg(args[k], k + 1, formatFloat) {
      }
      if Interpolate(query, args, formatFloat).Ok? {
        assert seq(|args|, k requires 0 <= k < |args| => encode(args[k], k + 1).value) ==
          seq(|args|, k requires 0 <= k < |args| => EncodeArg(args[k], k + 1, formatFloat).value);
      }
    }
  }

  /** The generic form of InterpolateOk, for any encoder. */
  lemma RenderOk(query: seq<byte>, args: seq<Arg>, encode: Encoder)
    requires CountByte(query, Question) == |args|
    ensures |Split(query)| == |args| + 1
    ensures Render(query, args, 0, encode).Ok? <==> forall k :: 0 <= k < |args| ==> encode(args[k], k + 1).Ok?
    ensures Render(query, args, 0, encode).Ok? ==>
      Render(query, args, 0, encode).value ==
        Interleave(Split(query), seq(|args|, k requires 0 <= k < |args| => encode(args[k], k + 1).value))
  {
    SplitCount(query);
    EncodeAllOk(args, 0, encode);
    RenderIsInterleave(query, args, 0, encode);
    assert forall k :: 0 <= k < |args| ==> encode(args[k], 0 + k + 1) == encode(args[k], k + 1);
    if EncodeAll(args, 0, encode).Ok? {
      var pieces := EncodeAll(args, 0, encode).value;
      var literals := seq(|args|, k requires 0 <= k < |args| => encode(args[k], k + 1).value);
      assert pieces == literals;
    }
  }

  /**
   * A failure other than the arity check is the error of the first argument, in order,
   * that cannot be encoded: its UnknownType carries that argument's 1-based position.
   */
  lemma InterpolateFirstError(query: seq<byte>, args: seq<Arg>, formatFloat: uint64 -> seq<byte>)
    requires CountByte(query, Question) == |args|
    requires Interpolate(query, args, formatFloat).Err?
    ensures exists k :: (0 <= k < |args| &&
      EncodeArg(args[k], k + 1, formatFloat) == Err(Interpolate(query, args, formatFloat).error) &&
      forall j :: 0 <= j < k ==> EncodeArg(args[j], j + 1, formatFloat).Ok?)
  {
    var encode := ArgEncoder(formatFloat);
    RenderIsInterleave(query, args, 0, encode);
    EncodeAllFirstError(args, 0, encode);
    assert forall k :: 0 <= k < |args| ==> encode(args[k], 0 + k + 1) == EncodeArg(args[k], k + 1, formatFloat);
  }

  /** A prefix, an escaped payload and a closing quote: after the prefix, the payload reads back. */
  lemma PrefixedLiteralReadsBack(prefix: seq<byte>, v: seq<byte>, rest: seq<byte>)
    requires rest == [] || rest[0] != Quote
    ensures var e := prefix + Escape.Escape(v) + [Quote];
      e[..|prefix|] == prefix && ReadQuoted(e[|prefix|..] + rest) == Some((v, rest))
  {
    var body := Escape.Escape(v) + [Quote];
    assert prefix + Escape.Escape(v) + [Quote] == prefix + body;
    assert (prefix + body)[..|prefix|] == prefix && (prefix + body)[|prefix|..] == body;
    EscapedLiteralCloses(v, rest);
  }

  /** The query `'?'` with a string argument becomes `''` + escaped payload + `''`. */
  lemma QuotedPlaceholder(v: seq<byte>, formatFloat: uint64 -> seq<byte>)
    ensures Interpolate([Quote, Question, Quote], [Str(v)], formatFloat)
         == Ok([Quote, Quote] + Escape.Escape(v) + [Quote, Quote])
  {
    var enc := ArgEncoder(formatFloat);
    var q: seq<byte> := [Quote, Question, Quote];
    var tail: seq<byte> := [Quote];
    assert q[1..] == [Question] + tail && q[1..][1..] == tail && tail[1..] == [];
    assert CountByte(tail, Question) == 0;
    assert CountByte(q, Question) == 1;
    var lit := [Quote] + Escape.Escape(v) + [Quote];
    assert enc(Str(v), 1) == Ok(lit);
    assert Quote != Question;
    assert Render(tail[1..], [], 1, enc) == Ok([]);
    assert Render(tail, [], 1, enc) == Prepend(tail, Ok([]));
    assert [Str(v)][1..] == [];
    assert Render(q[1..], [Str(v)], 0, enc) == Prepend(lit, Render(tail, [], 1, enc));
    assert q[0] == Quote && q[0] != Question;
    assert Render(q, [Str(v)], 0, enc) == Prepend([q[0]], Render(q[1..], [Str(v)], 0, enc));
    assert Interpolate(q, [Str(v)], formatFloat) == Render(q, [Str(v)], 0, enc);
    assert tail + [] == tail;
    assert Render(tail, [], 1, enc) == Ok(tail);
    assert Render(q[1..], [Str(v)], 0, enc) == Ok(lit + tail);
    assert Render(q, [Str(v)], 0, enc) == Ok([Quote] + (lit + tail));
    assert [Quote] + (lit + tail) == [Quote, Quote] + Escape.Escape(v) + [Quote, Quote];
  }

  /** A string or json.RawMessage literal reads back as exactly its payload, whatever it holds. */
  lemma QuotedTextReadsBack(arg: Arg, argPos: nat, formatFloat: uint64 -> seq<byte>, rest: seq<byte>)
    requires arg.Str? || arg.RawJson?
    requires rest == [] || rest[0] != Quote
    ensures var e := EncodeArg(arg, argPos, formatFloat).value;
      e[0] == Quote && ReadQuoted(e[1..] + rest) == Some((if arg.Str? then arg.str else arg.json, rest))
  {
    var v := if arg.Str? then arg.str else arg.json;
    assert EncodeArg(arg, argPos, formatFloat) == Ok([Quote] + Escape.Escape(v) + [Quote]);
    PrefixedLiteralReadsBack([Quote], v, rest);
  }

  /** A non-nil []byte is `_binary'…'` and its literal reads back as exactly its bytes. */
  lemma BinaryReadsBack(v: seq<byte>, argPos: nat, formatFloat: uint64 -> seq<byte>, rest: seq<byte>)
    requires rest == [] || rest[0] != Quote
    ensures var e := EncodeArg(ByteSlice(v), argPos, formatFloat).value;
      e[..8] == BinaryPrefix && ReadQuoted(e[8..] + rest) == Some((v, rest))
  {
    PrefixedLiteralReadsBack(BinaryPrefix, v, rest);
  }

  /** A nil value and a nil []byte are NULL; a zero time is '0000-00-00'; booleans are 1 and 0. */
  lemma FixedLiterals(argPos: nat, formatFloat: uint64 -> seq<byte>, t: UtcTime)
    ensures EncodeArg(Nil, argPos, formatFloat) == Ok(Ascii("NULL"))
    ensures EncodeArg(NilByteSlice, argPos, formatFloat) == Ok(Ascii("NULL"))
    ensures IsZero(t) ==> EncodeArg(Time(t), argPos, formatFloat) == Ok(Ascii("'0000-00-00'"))
    ensures EncodeArg(Bool(true), argPos, formatFloat) == Ok(Ascii("1"))
    ensures EncodeArg(Bool(false), argPos, formatFloat) == Ok(Ascii("0"))
  {
    assert Ascii("1") == [One];
    assert Ascii("0") == [Zero];
  }

  /** A non-zero time is its date-time text between quotes; the text itself holds no quote. */
  lemma TimeLiteral(t: UtcTime, argPos: nat, formatFloat: uint64 -> seq<byte>, rest: seq<byte>)
    requires !IsZero(t) && DateTimeText(t).Ok?
    requires rest == [] || rest[0] != Quote
    ensures var e := EncodeArg(Time(t), argPos, formatFloat).value;
      e == [Quote] + DateTimeText(t).value + [Quote] &&
      ReadQuoted(e[1..] + rest) == Some((DateTimeText(t).value, rest))
  {
    var s := DateTimeText(t).value;
    DateTimeTextNoQuote(t);
    assert EncodeArg(Time(t), argPos, formatFloat).value == [Quote] + s + [Quote];
    PlainTextReadsBack(s, rest);
  }

  /** Text without quotes, put between quotes, reads back as itself. */
  lemma PlainTextReadsBack(s: seq<byte>, rest: seq<byte>)
    requires Quote !in s
    requires rest == [] || rest[0] != Quote
    ensures ReadQuoted(([Quote] + s + [Quote])[1..] + rest) == Some((s, rest))
  {
    NoQuoteEscape(s);
    PrefixedLiteralReadsBack([Quote], s, rest);
  }

  lemma {:induction false} NoQuoteEscape(s: seq<byte>)
    requires Quote !in s
    ensures Escape.Escape(s) == s
  {
    if s != [] {
      NoQuoteEscape(s[1..]);
    }
  }

  // ---------------------------------------------------------------------------------------
  // The imperative code.

  /**
   * The body of the loop after the placeholder: NULL for nil, then the type switch. It appends
   * the argument's literal, or reports the argument's error (the buffer is then abandoned).
   * `literal` is EncodeArg's result, named for the proof only.
   */
  method AppendArg(b: ByteBuf, arg: Arg, argPos: nat, formatFloat: uint64 -> seq<byte>,
                   ghost literal: Result<seq<byte>>) returns (err: Option<Error>)
    requires literal == EncodeArg(arg, argPos, formatFloat)
    requires b.Valid()
    modifies b, b.data
    ensures b.Valid() && (b.data == old(b.data) || fresh(b.data))
    ensures literal.Ok? ==> err.None? && b.Contents() == old(b.Contents()) + literal.value
    ensures literal.Err? ==> err == Some(literal.error)
  {
    match arg {
      case Nil => b.Append(Null);
      case Int(v) => b.Append(FormatInt(v as int));
      case Int64(v) => b.Append(FormatInt(v as int));
      case Uint64(v) => b.Append(FormatUint(v as int));
      case Float64(bits) => b.Append(formatFloat(bits));
      case Bool(v) =>
        if v {
          b.Append([One]);
        } else {
          b.Append([Zero]);
        }
      case Time(v) =>
        err := AppendTime(b, v);
        return;
      case RawJson(v) => AppendQuotedBytes(b, [Quote], v);
      case NilByteSlice => b.Append(Null);
      case ByteSlice(v) => AppendQuotedBytes(b, BinaryPrefix, v);
      case Str(v) => AppendQuotedString(b, v);
      case Other =>
        return Some(UnknownType(argPos));
    }
    return None;
  }

  /** The time.Time case: '0000-00-00' for the zero time, else the date-time text between quotes. */
  method AppendTime(b: ByteBuf, v: UtcTime) returns (err: Option<Error>)
    requires b.Valid()
    modifies b, b.data
    ensures b.Valid() && (b.data == old(b.data) || fresh(b.data))
    ensures IsZero(v) ==> err.None? && b.Contents() == old(b.Contents()) + ZeroDate
    ensures !IsZero(v) ==> (err.None? <==> DateTimeText(v).Ok?)
    ensures !IsZero(v) && err.None? ==> b.Contents() == old(b.Contents()) + ([Quote] + DateTimeText(v).value + [Quote])
    ensures !IsZero(v) && err.Some? ==> err.value == DateTimeText(v).error
  {
    if IsZero(v) {
      b.Append(ZeroDate);
      return None;
    }
    ghost var before := b.Contents();
    b.Append([Quote]);
    err := AppendDateTime(b, v);
    if err.Some? {
      return;
    }
    b.Append([Quote]);
    AppendThree(before, [Quote], DateTimeText(v).value, [Quote]);
  }

  /** The json.RawMessage and non-nil []byte cases: `prefix`, the escaped bytes, a closing quote. */
  method AppendQuotedBytes(b: ByteBuf, prefix: seq<byte>, v: seq<byte>)
    requires b.Valid()
    modifies b, b.data
    ensures b.Valid() && (b.data == old(b.data) || fresh(b.data))
    ensures b.Contents() == old(b.Contents()) + (prefix + Escape.Escape(v) + [Quote])
  {
    ghost var before := b.Contents();
    b.Append(prefix);
    EscapeBytesQuotes(b, v);
    b.Append([Quote]);
    AppendThree(before, prefix, Escape.Escape(v), [Quote]);
  }

  /** The string case: the escaped string between quotes. */
  method AppendQuotedString(b: ByteBuf, v: seq<byte>)
    requires b.Valid()
    modifies b, b.data
    ensures b.Valid() && (b.data == old(b.data) || fresh(b.data))
    ensures b.Contents() == old(b.Contents()) + ([Quote] + Escape.Escape(v) + [Quote])
  {
    ghost var before := b.Contents();
    b.Append([Quote]);
    EscapeStringQuotes(b, v);
    b.Append([Quote]);
    AppendThree(before, [Quote], Escape.Escape(v), [Quote]);
  }

  /**
   * interpolateParams: checks the placeholder count, then runs the substitution loop, which
   * ends with the ErrInvalidParseArgs check.
   */
  method InterpolateParams(query: seq<byte>, args: seq<Arg>, formatFloat: uint64 -> seq<byte>) returns (r: Result<seq<byte>>)
    ensures r == Interpolate(query, args, formatFloat)
  {
    // the arity check: one argument per placeholder
    if CountByte(query, Question) != |args| {
      return Err(InvalidArgs);
    }
    r := SubstituteAll(query, args, formatFloat, ArgEncoder(formatFloat));
  }

  /**
   * The loop of interpolateParams: walks the query, copying the text up to each `?` found with
   * IndexByte and appending the next argument's literal in its place. `rest` is the unread
   * suffix, Go's `query[i:]`, so `rest := rest[q + 1..]` is the source's `i += q` and `i++`.
   * `encode` is EncodeArg, named for the proof only.
   */
  method SubstituteAll(query: seq<byte>, args: seq<Arg>, formatFloat: uint64 -> seq<byte>, ghost encode: Encoder)
    returns (r: Result<seq<byte>>)
    requires CountByte(query, Question) == |args|
    requires forall arg, argPos :: encode(arg, argPos) == EncodeArg(arg, argPos, formatFloat)
    ensures r == Render(query, args, 0, encode)
  {
    var buf := new ByteBuf();
    var argPos := 0;
    var rest := query;
    assert args[argPos..] == args;
    PrependNothing(Render(query, args, 0, encode));
    while rest != []
      invariant 0 <= argPos <= |args|
      invariant fresh(buf) && fresh(buf.data) && buf.Valid()
      invariant CountByte(rest, Question) == |args| - argPos
      invariant Render(query, args, 0, encode) ==
        Prepend(buf.Contents(), Render(rest, args[argPos..], argPos, encode))
    {
      var q := IndexByte(rest, Question);
      if q == -1 {
        LoopExit(rest, args, argPos, encode, buf.Contents());
        buf.Append(rest);
        rest := [];
        break;
      }
      CountAroundPlaceholder(rest, q);
      ghost var done, pos := buf.Contents(), argPos;
      buf.Append(rest[..q]);

      var arg := args[argPos];
      argPos := argPos + 1;
      ghost var literal := EncodeArg(arg, argPos, formatFloat);
      assert encode(args[pos], pos + 1) == literal;
      var err := AppendArg(buf, arg, argPos, formatFloat, literal);
      if err.Some? {
        LoopFail(query, rest, q, args, pos, encode, done, literal.error);
        return Err(err.value);
      }
      LoopTurn(query, rest, q, args, pos, encode, done, literal.value);
      rest := rest[q + 1..];
    }
    LoopExit(rest, args, argPos, encode, buf.Contents());
    assert buf.Contents() + [] == buf.Contents();
    r := if argPos != |args| then Err(InvalidParseArgs) else Ok(buf.Contents());
  }

  lemma PrependNothing(r: Result<seq<byte>>)
    ensures Prepend([], r) == r
  {
    if r.Ok? {
      assert [] + r.value == r.value;
    }
  }

  /**
   * One turn of the loop, on values: with `done` written so far and `rest` unread, the text up
   * to the next `?` and the next argument's literal `piece` move into the output.
   */
  lemma LoopTurn(query: seq<byte>, rest: seq<byte>, q: nat, args: seq<Arg>, argPos: nat, encode: Encoder,
                 done: seq<byte>, piece: seq<byte>)
    requires argPos < |args|
    requires CountByte(query, Question) == |args|
    requires CountByte(rest, Question) == |args| - argPos
    requires q < |rest| && rest[q] == Question && Question !in rest[..q]
    requires Render(query, args, 0, encode) == Prepend(done, Render(rest, args[argPos..], argPos, encode))
    requires encode(args[argPos], argPos + 1) == Ok(piece)
    ensures CountByte(rest[q + 1..], Question) == |args| - (argPos + 1)
    ensures Render(query, args, 0, encode) ==
      Prepend(done + rest[..q] + piece, Render(rest[q + 1..], args[argPos + 1..], argPos + 1, encode))
  {
    RenderStep(rest, q, args[argPos..], argPos, encode);
    assert args[argPos..][0] == args[argPos] && args[argPos..][1..] == args[argPos + 1..];
    assert done + (rest[..q] + piece) == done + rest[..q] + piece;
    PrependAssoc(done, rest[..q] + piece, Render(rest[q + 1..], args[argPos + 1..], argPos + 1, encode));
  }

  /** The turn whose argument cannot be encoded: the whole statement fails with its error. */
  lemma LoopFail(query: seq<byte>, rest: seq<byte>, q: nat, args: seq<Arg>, argPos: nat, encode: Encoder,
                 done: seq<byte>, e: Error)
    requires argPos < |args|
    requires CountByte(query, Question) == |args|
    requires CountByte(rest, Question) == |args| - argPos
    requires q < |rest| && rest[q] == Question && Question !in rest[..q]
    requires Render(query, args, 0, encode) == Prepend(done, Render(rest, args[argPos..], argPos, encode))
    requires encode(args[argPos], argPos + 1) == Err(e)
    ensures Render(query, args, 0, encode) == Err(e)
  {
    RenderStep(rest, q, args[argPos..], argPos, encode);
    assert args[argPos..][0] == args[argPos];
  }

  /** The loop's end: no `?` is left, so every argument has been used and the rest is copied. */
  lemma LoopExit(rest: seq<byte>, args: seq<Arg>, argPos: nat, encode: Encoder, done: seq<byte>)
    requires argPos <= |args|
    requires CountByte(rest, Question) == |args| - argPos
    requires Question !in rest
    ensures argPos == |args|
    ensures Prepend(done, Render(rest, args[argPos..], argPos, encode)) == Ok(done + rest)
  {
    CountByteZero(rest, Question);
    assert args[argPos..] == [] && rest + [] == rest;
    RenderLiteral(rest, [], [], argPos, encode);
  }
}
