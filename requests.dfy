/** The request builder (`Requests::to_header`): the two requests the client sends,
    rendered to the bytes `Client::write` puts on the wire. */
module Requests {
  import opened Wire
  import opened Decimal
  import Utf8
  import Codec

  /** `Requests`: the whole resource, or the bytes from `start` to `end`. */
  datatype Request = Full | Range(start: nat, end: nat)

  const DASH: byte := 45

  /** `"GET / HTTP/1.0\r\n\r\n"` */
  const FULL_TEXT: seq<byte> := Ascii("GET / HTTP/1.0\r\n\r\n")
  /** The part of `"GET / HTTP/1.0\r\nRange: bytes={n}-{m}\r\n\r\n"` before `{n}`. */
  const RANGE_PREFIX: seq<byte> := Ascii("GET / HTTP/1.0\r\nRange: bytes=")
  /** The part of the same format string after `{m}`. */
  const RANGE_END: seq<byte> := Ascii("\r\n\r\n")

  /** The bytes of the rendered request; numbers are plain decimal. */
  function ToHeader(r: Request): (s: seq<byte>)
    ensures |s| >= 4 && s[|s| - 4..] == Codec.TERMINATOR
  {
    match r
    case Full => FULL_TEXT
    case Range(n, m) => RANGE_PREFIX + Dec(n) + [DASH] + Dec(m) + RANGE_END
  }

  /** Reads a rendered request back: the inverse of `ToHeader`, i.e. how the
      receiving end recovers the two bounds. */
  function ParseRequest(s: seq<byte>): Option<Request> {
    if s == FULL_TEXT then Some(Full)
    else if |s| >= |RANGE_PREFIX| + |RANGE_END| && s[..|RANGE_PREFIX|] == RANGE_PREFIX
      && s[|s| - |RANGE_END|..] == RANGE_END
    then
      var span := s[|RANGE_PREFIX|..|s| - |RANGE_END|];
      match IndexOf(span, DASH)
      case None => None
      case Some(k) =>
        var first, last := span[..k], span[k + 1..];
        if first != [] && last != [] && AllDigits(first) && AllDigits(last) then
          Some(Range(DigitsValue(first), DigitsValue(last)))
        else None
    else None
  }

  /** Rendering then reading back gives the same request: both bounds travel in the
      range directive exactly. */
  lemma {:induction false} ToHeaderRoundTrip(r: Request)
    ensures ParseRequest(ToHeader(r)) == Some(r)
  {
    if r.Range? {
      var n, m := r.start, r.end;
      RangeEnvelope(n, m);
      SpanSplits(n, m);
      ParseRange(ToHeader(r), n, m);
    }
  }

  /** A message in the range envelope whose span is `<n>-<m>` reads as `Range(n, m)`. */
  lemma {:induction false} ParseRange(s: seq<byte>, n: nat, m: nat)
    requires s != FULL_TEXT && |s| >= |RANGE_PREFIX| + |RANGE_END|
    requires s[..|RANGE_PREFIX|] == RANGE_PREFIX && s[|s| - |RANGE_END|..] == RANGE_END
    requires var span := s[|RANGE_PREFIX|..|s| - |RANGE_END|];
      && IndexOf(span, DASH) == Some(|Dec(n)|)
      && span[..|Dec(n)|] == Dec(n)
      && span[|Dec(n)| + 1..] == Dec(m)
    ensures ParseRequest(s) == Some(Range(n, m))
  {
  }

  /** A rendered range request is the fixed prefix, the span `<n>-<m>` and the
      blank line, and it is not the full request. */
  lemma {:induction false} RangeEnvelope(n: nat, m: nat)
    ensures var s := ToHeader(Range(n, m));
      && s != FULL_TEXT
      && |s| >= |RANGE_PREFIX| + |RANGE_END|
      && s[..|RANGE_PREFIX|] == RANGE_PREFIX
      && s[|s| - |RANGE_END|..] == RANGE_END
      && s[|RANGE_PREFIX|..|s| - |RANGE_END|] == Dec(n) + [DASH] + Dec(m)
  {
    var s := ToHeader(Range(n, m));
    var span := Dec(n) + [DASH] + Dec(m);
    assert s == RANGE_PREFIX + span + RANGE_END;
    assert |s| != |FULL_TEXT|;
  }

  /** The first dash of the span separates the two numerals. */
  lemma {:induction false} SpanSplits(n: nat, m: nat)
    ensures var span := Dec(n) + [DASH] + Dec(m);
      && IndexOf(span, DASH) == Some(|Dec(n)|)
      && span[..|Dec(n)|] == Dec(n)
      && span[|Dec(n)| + 1..] == Dec(m)
  {
    var span := Dec(n) + [DASH] + Dec(m);
    assert DASH !in Dec(n) by {
      forall i | 0 <= i < |Dec(n)| ensures Dec(n)[i] != DASH { assert IsDigit(Dec(n)[i]); }
    }
    assert span[|Dec(n)|] == DASH && span[..|Dec(n)|] == Dec(n);
    assert span[|Dec(n)| + 1..] == Dec(m);
  }

  // ------------------------------------------------------- framing

  const REQUEST_LINE: seq<byte> := Ascii("GET / HTTP/1.0")
  const RANGE_FIELD: seq<byte> := Ascii("Range: bytes=")

  /** The header text of a request: its lines joined by CR LF. */
  function RequestLines(r: Request): seq<seq<byte>> {
    match r
    case Full => [REQUEST_LINE]
    case Range(n, m) => [REQUEST_LINE, RANGE_FIELD + Dec(n) + [DASH] + Dec(m)]
  }

  lemma {:induction false} LiteralsSplit()
    ensures FULL_TEXT == REQUEST_LINE + Codec.TERMINATOR
    ensures RANGE_PREFIX == REQUEST_LINE + [CR, LF] + RANGE_FIELD
    ensures RANGE_END == Codec.TERMINATOR
    ensures CR !in REQUEST_LINE && LF !in REQUEST_LINE && CR !in RANGE_FIELD && LF !in RANGE_FIELD
    ensures Utf8.AllAscii(REQUEST_LINE) && Utf8.AllAscii(RANGE_FIELD)
  {
    LiteralsJoin();
    LiteralsPlain();
  }

  lemma {:induction false} LiteralsJoin()
    ensures FULL_TEXT == REQUEST_LINE + Codec.TERMINATOR
    ensures RANGE_PREFIX == REQUEST_LINE + [CR, LF] + RANGE_FIELD
    ensures RANGE_END == Codec.TERMINATOR
  {
  }

  lemma {:induction false} LiteralsPlain()
    ensures CR !in REQUEST_LINE && LF !in REQUEST_LINE && CR !in RANGE_FIELD && LF !in RANGE_FIELD
    ensures Utf8.AllAscii(REQUEST_LINE) && Utf8.AllAscii(RANGE_FIELD)
  {
  }

  /** Every request is itself a well-framed header block with no body: a reader
      that splits at the first CR LF CR LF, as `Response::try_from` does, sees
      exactly the request's lines, the second of which is the range directive
      `Range: bytes=<n>-<m>`. */
  lemma {:induction false} RequestIsHeaderBlock(r: Request)
    ensures var h := Codec.JoinCrlf(RequestLines(r));
      && ToHeader(r) == Codec.Frame(h, [])
      && Codec.TryFrom(ToHeader(r)) == Codec.Ok(Codec.Response(ToHeader(r), |ToHeader(r)|, Codec.Headers(h)))
      && Codec.Lines(h) == RequestLines(r)
  {
    LiteralsSplit();
    var ls := RequestLines(r);
    var h := Codec.JoinCrlf(ls);
    if r.Range? {
      RangeHeaderText(r.start, r.end);
      TwoLinesNoTerminator(REQUEST_LINE, ls[1]);
    } else {
      assert h == REQUEST_LINE;
      Codec.NoCrNoTerminator(h);
    }
    Utf8.AsciiValid(h);
    Codec.FrameParses(h, []);
    Codec.LinesJoin(ls);
  }

  /** The header text of a range request: the request line and the range line. */
  lemma {:induction false} RangeHeaderText(n: nat, m: nat)
    ensures var l2 := RANGE_FIELD + Dec(n) + [DASH] + Dec(m);
      var h := REQUEST_LINE + [CR, LF] + l2;
      && RequestLines(Range(n, m)) == [REQUEST_LINE, l2]
      && Codec.JoinCrlf([REQUEST_LINE, l2]) == h
      && ToHeader(Range(n, m)) == Codec.Frame(h, [])
      && CR !in l2 && LF !in l2 && l2 != []
      && Utf8.AllAscii(h)
  {
    LiteralsPlain();
    var span := Dec(n) + [DASH] + Dec(m);
    var l2 := RANGE_FIELD + Dec(n) + [DASH] + Dec(m);
    assert l2 == RANGE_FIELD + span;
    SpanBytes(n, m);
    var h := REQUEST_LINE + [CR, LF] + l2;
    assert Codec.JoinCrlf([REQUEST_LINE, l2]) == h;
    RangeFrame(n, m);
    RangeLineBytes(REQUEST_LINE, RANGE_FIELD, span);
  }

  /** A rendered range request is its two header lines framed with no body. */
  lemma {:induction false} RangeFrame(n: nat, m: nat)
    ensures ToHeader(Range(n, m))
      == Codec.Frame(REQUEST_LINE + [CR, LF] + (RANGE_FIELD + Dec(n) + [DASH] + Dec(m)), [])
  {
    var span := Dec(n) + [DASH] + Dec(m);
    assert RANGE_FIELD + Dec(n) + [DASH] + Dec(m) == RANGE_FIELD + span;
    RangeRendering(n, m);
    LiteralsJoin();
    Reframe(REQUEST_LINE, RANGE_FIELD, span, RANGE_PREFIX, RANGE_END);
  }

  lemma {:induction false} RangeRendering(n: nat, m: nat)
    ensures ToHeader(Range(n, m)) == RANGE_PREFIX + (Dec(n) + [DASH] + Dec(m)) + RANGE_END
  {
    assert RANGE_PREFIX + Dec(n) + [DASH] + Dec(m) == RANGE_PREFIX + (Dec(n) + [DASH] + Dec(m));
  }

  /** Prefix, span and end make a frame of the header whose second line is the field
      followed by the span. */
  lemma {:induction false} Reframe(line: seq<byte>, field: seq<byte>, span: seq<byte>,
                                   prefix: seq<byte>, end: seq<byte>)
    requires prefix == line + [CR, LF] + field && end == Codec.TERMINATOR
    ensures prefix + span + end == Codec.Frame(line + [CR, LF] + (field + span), [])
  {
    var a := line + [CR, LF];
    assert a + (field + span) == a + field + span;
    assert Codec.Frame(a + (field + span), []) == a + (field + span) + Codec.TERMINATOR;
  }

  lemma {:induction false} RangeLineBytes(line: seq<byte>, field: seq<byte>, span: seq<byte>)
    requires CR !in field && LF !in field && field != [] && Utf8.AllAscii(field) && Utf8.AllAscii(line)
    requires CR !in span && LF !in span && Utf8.AllAscii(span)
    ensures CR !in field + span && LF !in field + span && field + span != []
    ensures Utf8.AllAscii(line + [CR, LF] + (field + span))
  {
    var h := line + [CR, LF] + (field + span);
    forall i | 0 <= i < |h| ensures h[i] <= 0x7F {
      if i < |line| { assert h[i] == line[i]; }
      else if i >= |line| + 2 + |field| { assert h[i] == span[i - |line| - 2 - |field|]; }
      else if i >= |line| + 2 { assert h[i] == field[i - |line| - 2]; }
    }
  }

  /** The span `<n>-<m>` is ASCII and holds neither CR nor LF. */
  lemma {:induction false} SpanBytes(n: nat, m: nat)
    ensures Dec(n) + [DASH] + Dec(m) != []
    ensures var span := Dec(n) + [DASH] + Dec(m);
      CR !in span && LF !in span && Utf8.AllAscii(span)
  {
    var span := Dec(n) + [DASH] + Dec(m);
    forall i | 0 <= i < |span| ensures span[i] != CR && span[i] != LF && span[i] <= 0x7F {
      if i < |Dec(n)| { assert IsDigit(Dec(n)[i]); }
      else if i > |Dec(n)| { assert IsDigit(Dec(m)[i - |Dec(n)| - 1]); }
    }
  }

  /** Two CR-free lines separated by CR LF hide no blank line. */
  lemma {:induction false} TwoLinesNoTerminator(l1: seq<byte>, l2: seq<byte>)
    requires CR !in l1 && CR !in l2 && l2 != []
    ensures forall j: nat :: !Codec.TerminatorAt(l1 + [CR, LF] + l2 + [CR, LF, CR], j)
  {
    var h3 := l1 + [CR, LF] + l2 + [CR, LF, CR];
    forall j: nat
      ensures !Codec.TerminatorAt(h3, j)
    {
      if j + 4 <= |h3| {
        if j < |l1| {
          assert h3[j] == l1[j];
        } else if j == |l1| {
          assert h3[j + 2] == l2[0];
        } else if j == |l1| + 1 {
          assert h3[j] == LF;
        } else {
          assert h3[j] == l2[j - |l1| - 2];
        }
      }
    }
  }
}
