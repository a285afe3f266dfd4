/** The header codec: framing a raw response at its first blank line
    (`TryFrom<Vec<u8>> for Response`, `Response::data`) and reading the declared
    length out of the header block (`Headers::content_length`). */
module Codec {
  import opened Wire
  import opened Decimal
  import Utf8

  /** The header block. `all` holds the bytes of the Rust `String`, which is how a
      `String` stores its text; they are always valid UTF-8. */
  datatype Headers = Headers(all: seq<byte>) {
    /** The value of the first line that starts with `Content-Length: ` and whose
        remainder parses as a `usize`. */
    function ContentLength(): (r: Option<nat>)
      ensures r.Some? ==> r.value <= USIZE_MAX
    {
      FirstLength(Lines(all))
    }
  }

  /** One response: everything read before the server closed the connection, the
      offset where the body starts, and the decoded header block. */
  datatype Response = Response(fullData: seq<byte>, headersSplitoff: nat, headers: Headers) {
    predicate WellFormed() {
      headersSplitoff <= |fullData|
    }

    /** The body: every byte after the blank line. */
    function Data(): (body: seq<byte>)
      requires WellFormed()
      ensures |body| == |fullData| - headersSplitoff
    {
      fullData[headersSplitoff..]
    }
  }

  /** `Result<Response, ()>`: the conversion's error carries no information. */
  datatype Result<T> = Ok(value: T) | Err

  /** The blank line that ends a header block: CR LF CR LF. */
  const TERMINATOR: seq<byte> := [CR, LF, CR, LF]

  /** The four-byte window of `s` at `i` is CR LF CR LF. */
  predicate TerminatorAt(s: seq<byte>, i: nat) {
    i + 4 <= |s| && s[i] == CR && s[i + 1] == LF && s[i + 2] == CR && s[i + 3] == LF
  }

  /** `p` is where the first CR LF CR LF of `s` begins. */
  predicate IsFirstTerminator(s: seq<byte>, p: nat) {
    TerminatorAt(s, p) && forall j: nat :: j < p ==> !TerminatorAt(s, j)
  }

  /** `windows(4).position(..)`, searching from window `from` on. */
  function FindTerminator(s: seq<byte>, from: nat): (r: Option<nat>)
    ensures r.Some? ==> from <= r.value && TerminatorAt(s, r.value)
    ensures r.Some? ==> forall j: nat :: from <= j < r.value ==> !TerminatorAt(s, j)
    ensures r.None? ==> forall j: nat :: from <= j ==> !TerminatorAt(s, j)
    decreases |s| - from
  {
    if from + 4 > |s| then None
    else if TerminatorAt(s, from) then Some(from)
    else FindTerminator(s, from + 1)
  }

  /** `Response::try_from`: succeeds exactly when the bytes contain CR LF CR LF and the
      bytes before its first occurrence are valid UTF-8; the response then keeps the
      bytes unchanged, its body starts right after that blank line, and its header
      text is exactly the bytes before it. */
  function TryFrom(value: seq<byte>): (r: Result<Response>)
    ensures r.Ok? <==> exists p: nat :: IsFirstTerminator(value, p) && Utf8.Valid(value[..p])
    ensures r.Ok? ==>
      && r.value.fullData == value
      && r.value.WellFormed()
      && r.value.headersSplitoff >= 4
      && IsFirstTerminator(value, r.value.headersSplitoff - 4)
      && r.value.headers.all == value[..r.value.headersSplitoff - 4]
  {
    match FindTerminator(value, 0)
    case None => Err
    case Some(pos) =>
      if Utf8.Valid(value[..pos]) then Ok(Response(value, pos + 4, Headers(value[..pos])))
      else Err
  }

  /** The raw bytes of a response are its header text, the blank line and its body,
      so the body has `|value| - pos - 4` bytes. */
  lemma {:induction false} ResponseSplits(value: seq<byte>)
    requires TryFrom(value).Ok?
    ensures var r := TryFrom(value).value;
      && value == r.headers.all + TERMINATOR + r.Data()
      && |r.Data()| == |value| - |r.headers.all| - 4
  {
    var r := TryFrom(value).value;
    var pos := r.headersSplitoff - 4;
    assert value[pos..pos + 4] == TERMINATOR;
    assert value == value[..pos] + value[pos..pos + 4] + value[pos + 4..];
  }

  /** A header block followed by the blank line and a body, as the server sends it. */
  function Frame(header: seq<byte>, body: seq<byte>): seq<byte> {
    header + TERMINATOR + body
  }

  /** Framing round trip: when no CR LF CR LF starts inside the header (counting the
      first three bytes of the blank line) and the header is valid UTF-8, parsing the
      frame gives back exactly that header and that body. */
  lemma {:induction false} FrameParses(header: seq<byte>, body: seq<byte>)
    requires forall j: nat :: !TerminatorAt(header + [CR, LF, CR], j)
    requires Utf8.Valid(header)
    ensures TryFrom(Frame(header, body)) == Ok(Response(Frame(header, body), |header| + 4, Headers(header)))
    ensures TryFrom(Frame(header, body)).value.Data() == body
  {
    var s := Frame(header, body);
    FrameTerminator(header, body);
    FirstTerminatorFound(s, |header|);
    assert s[..|header|] == header;
    assert s[|header| + 4..] == body;
  }

  /** The blank line after the header is the first one in the frame. */
  lemma {:induction false} FrameTerminator(header: seq<byte>, body: seq<byte>)
    requires forall j: nat :: !TerminatorAt(header + [CR, LF, CR], j)
    ensures IsFirstTerminator(Frame(header, body), |header|)
  {
    var s, h3 := Frame(header, body), header + [CR, LF, CR];
    assert s[..|h3|] == h3;
    forall j: nat | j < |header|
      ensures !TerminatorAt(s, j)
    {
      assert !TerminatorAt(h3, j);
      assert s[j] == s[..|h3|][j] && s[j + 1] == s[..|h3|][j + 1] && s[j + 2] == s[..|h3|][j + 2];
    }
    assert TerminatorAt(s, |header|);
  }

  /** The search finds the first blank line. */
  lemma {:induction false} FirstTerminatorFound(s: seq<byte>, p: nat)
    requires IsFirstTerminator(s, p)
    ensures FindTerminator(s, 0) == Some(p)
  {
  }

  /** A header without any CR byte cannot hide a blank line. */
  lemma {:induction false} NoCrNoTerminator(header: seq<byte>)
    requires CR !in header
    ensures forall j: nat :: !TerminatorAt(header + [CR, LF, CR], j)
  {
  }

  // ---------------------------------------------------------------- lines

  /** Drops one trailing CR. */
  function StripCr(l: seq<byte>): seq<byte> {
    if l != [] && l[|l| - 1] == CR then l[..|l| - 1] else l
  }

  /** `str::lines`: split after every LF; a piece that ended in LF loses it and then
      one CR before it, if any; the piece after the last LF is a line only when it is
      not empty. */
  function Lines(s: seq<byte>): (ls: seq<seq<byte>>)
    ensures forall i :: 0 <= i < |ls| ==> LF !in ls[i]
    decreases |s|
  {
    if s == [] then []
    else match IndexOf(s, LF)
      case None => [s]
      case Some(i) =>
        assert LF !in StripCr(s[..i]) by {
          if s[..i] != [] { assert StripCr(s[..i]) == s[..i] || StripCr(s[..i]) == s[..i][..i - 1]; }
        }
        [StripCr(s[..i])] + Lines(s[i + 1..])
  }

  /** Lines separated by CR LF, as a header block writes them. */
  function JoinCrlf(ls: seq<seq<byte>>): seq<byte>
    decreases |ls|
  {
    if ls == [] then []
    else if |ls| == 1 then ls[0]
    else ls[0] + [CR, LF] + JoinCrlf(ls[1..])
  }

  /** `Lines` undoes `JoinCrlf` for lines without LF whose last line is not empty. */
  lemma {:induction false} LinesJoin(ls: seq<seq<byte>>)
    requires ls != [] && ls[|ls| - 1] != []
    requires forall i :: 0 <= i < |ls| ==> LF !in ls[i]
    ensures Lines(JoinCrlf(ls)) == ls
    decreases |ls|
  {
    if |ls| > 1 {
      var s := JoinCrlf(ls);
      var l := ls[0];
      assert s == l + [CR, LF] + JoinCrlf(ls[1..]);
      assert s[|l| + 1] == LF;
      assert s[..|l| + 1] == l + [CR];
      assert IndexOf(s, LF) == Some(|l| + 1);
      assert StripCr(s[..|l| + 1]) == l;
      assert s[|l| + 2..] == JoinCrlf(ls[1..]);
      LinesJoin(ls[1..]);
    }
  }

  // ------------------------------------------------------- content length

  const LENGTH: seq<byte> := Ascii("Content-Length: ")

  /** What the `find_map` closure yields for one line. */
  function LengthOf(line: seq<byte>): (r: Option<nat>)
    ensures r.Some? ==> |line| >= |LENGTH| && line[..|LENGTH|] == LENGTH && r.value <= USIZE_MAX
  {
    if |line| >= |LENGTH| && line[..|LENGTH|] == LENGTH then ParseUsize(line[|LENGTH|..]) else None
  }

  /** `find_map(LengthOf)` over the lines. */
  function FirstLength(ls: seq<seq<byte>>): (r: Option<nat>)
    ensures r.Some? ==> r.value <= USIZE_MAX && exists i :: 0 <= i < |ls| && LengthOf(ls[i]) == r
    decreases |ls|
  {
    if ls == [] then None
    else match LengthOf(ls[0])
      case Some(v) => Some(v)
      case None => FirstLength(ls[1..])
  }

  /** The value comes from the first line that yields one; earlier lines, including
      `Content-Length: ` lines whose value does not parse, are passed over. */
  lemma {:induction false} FirstLengthAt(ls: seq<seq<byte>>, i: nat)
    requires i < |ls| && LengthOf(ls[i]).Some?
    requires forall j :: 0 <= j < i ==> LengthOf(ls[j]).None?
    ensures FirstLength(ls) == LengthOf(ls[i])
    decreases i
  {
    if i > 0 {
      FirstLengthAt(ls[1..], i - 1);
    }
  }

  /** There is no value exactly when no line yields one. */
  lemma {:induction false} FirstLengthNone(ls: seq<seq<byte>>)
    ensures FirstLength(ls).None? <==> forall i :: 0 <= i < |ls| ==> LengthOf(ls[i]).None?
    decreases |ls|
  {
    if ls != [] {
      FirstLengthNone(ls[1..]);
      assert forall i :: 1 <= i < |ls| ==> ls[i] == ls[1..][i - 1];
    }
  }

  /** The line `Content-Length: <n>` yields `n` when `n` fits in a `usize`. */
  lemma {:induction false} LengthLine(n: nat)
    ensures LengthOf(LENGTH + Dec(n)) == if n <= USIZE_MAX then Some(n) else None
  {
    var line := LENGTH + Dec(n);
    assert line[..|LENGTH|] == LENGTH && line[|LENGTH|..] == Dec(n);
    ParseDec(n);
  }

  lemma {:induction false} LengthHasNoLf()
    ensures LF !in LENGTH && CR !in LENGTH && Utf8.AllAscii(LENGTH)
  {
  }

  /** With two `Content-Length` lines, the first one's value is the one used. */
  lemma {:induction false} DuplicateLengthFirstWins(n: nat, m: nat)
    requires n <= USIZE_MAX
    ensures Headers(JoinCrlf([LENGTH + Dec(n), LENGTH + Dec(m)])).ContentLength() == Some(n)
  {
    var ls := [LENGTH + Dec(n), LENGTH + Dec(m)];
    LengthHasNoLf();
    LinesJoin(ls);
    LengthLine(n);
  }

  /** A `Content-Length` line whose value does not parse is skipped and a later one
      is used. */
  lemma {:induction false} UnparsableLengthSkipped(junk: seq<byte>, m: nat)
    requires ParseUsize(junk).None? && LF !in junk
    requires m <= USIZE_MAX
    ensures Headers(JoinCrlf([LENGTH + junk, LENGTH + Dec(m)])).ContentLength() == Some(m)
  {
    var ls := [LENGTH + junk, LENGTH + Dec(m)];
    LengthHasNoLf();
    LinesJoin(ls);
    LengthLine(m);
    assert ls[0][..|LENGTH|] == LENGTH && ls[0][|LENGTH|..] == junk;
    FirstLengthAt(ls, 1);
  }

  /** A response whose header is the single line `Content-Length: <n>` parses, keeps
      its body, and declares `n` when `n` fits in a `usize`. */
  lemma {:induction false} LengthFrameParses(n: nat, body: seq<byte>)
    requires n <= USIZE_MAX
    ensures var h := LENGTH + Dec(n);
      && TryFrom(Frame(h, body)) == Ok(Response(Frame(h, body), |h| + 4, Headers(h)))
      && TryFrom(Frame(h, body)).value.Data() == body
      && Headers(h).ContentLength() == Some(n)
  {
    var h := LENGTH + Dec(n);
    LengthLineBytes(n);
    NoCrNoTerminator(h);
    Utf8.AsciiValid(h);
    FrameParses(h, body);
    LengthLineAlone(n);
  }

  /** The line `Content-Length: <n>` is ASCII and holds neither CR nor LF. */
  lemma {:induction false} LengthLineBytes(n: nat)
    ensures var h := LENGTH + Dec(n);
      h != [] && CR !in h && LF !in h && Utf8.AllAscii(h)
  {
    var h := LENGTH + Dec(n);
    LengthHasNoLf();
    forall i | 0 <= i < |h| ensures h[i] != CR && h[i] != LF && h[i] <= 0x7F {
      if i >= |LENGTH| { assert h[i] == Dec(n)[i - |LENGTH|] && IsDigit(Dec(n)[i - |LENGTH|]); }
      else { assert h[i] == LENGTH[i]; }
    }
  }

  /** A header block that is only the line `Content-Length: <n>` declares `n`. */
  lemma {:induction false} LengthLineAlone(n: nat)
    requires n <= USIZE_MAX
    ensures Headers(LENGTH + Dec(n)).ContentLength() == Some(n)
  {
    var h := LENGTH + Dec(n);
    LengthLineBytes(n);
    assert JoinCrlf([h]) == h;
    LinesJoin([h]);
    LengthLine(n);
  }

  /** A response with an empty header block parses and keeps its body; it declares
      no length. */
  lemma {:induction false} BareFrameParses(body: seq<byte>)
    ensures TryFrom(Frame([], body)) == Ok(Response(Frame([], body), 4, Headers([])))
    ensures TryFrom(Frame([], body)).value.Data() == body
    ensures Headers([]).ContentLength().None?
  {
    NoCrNoTerminator([]);
    FrameParses([], body);
  }
}
