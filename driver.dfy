/** The driver loop of `main`: one full fetch, then range fetches from the running
    total until the declared length is reached, then the file is written.

    The server and the operating system are an abstract sequence of replies, one per
    connection cycle. The sequence is finite, so a run that the source would go on
    with forever (a server that never completes the transfer) ends here with
    `OutOfReplies` once the replies run out. */
module Driver {
  import opened Wire
  import opened Decimal
  import Utf8
  import opened Codec
  import opened Requests
  import opened Transfer

  /** What one connection cycle gives the client. */
  datatype Reply =
    | Delivered(raw: seq<byte>)  // every byte read before the server closed the stream
    | Refused                    // `TcpStream::connect` failed
    | Broken                     // writing the request or reading the reply failed

  /** Why a run stops early; in the source each is a panic: an `unwrap`, or
      (`ProgressPanic`) the progress bar asked to draw a non-empty first body against a
      declared length of 0, whose bar width `add / 0` saturates to `usize::MAX`. */
  datatype Failure = ConnectionFailed | IoFailed | MalformedResponse | MissingContentLength | ProgressPanic

  datatype Status = Complete | Aborted(failure: Failure) | OutOfReplies

  /** The end of a run: how it ended, the requests written (in order), the responses
      received (in order) and the contents of the output file afterwards. */
  datatype Outcome = Outcome(status: Status, requests: seq<Request>, received: seq<Response>, file: seq<byte>)

  /** The run of `main` against `replies`, the output file holding `file` before it. */
  function Run(replies: seq<Reply>, file: seq<byte>): (o: Outcome)
    ensures AllWellFormed(o.received)
  {
    if replies == [] then Outcome(OutOfReplies, [], [], file)
    else match replies[0]
      case Refused => Outcome(Aborted(ConnectionFailed), [], [], file)
      case Broken => Outcome(Aborted(IoFailed), [Full], [], file)
      case Delivered(raw) =>
        match TryFrom(raw)
        case Err => Outcome(Aborted(MalformedResponse), [Full], [], file)
        case Ok(first) =>
          match first.headers.ContentLength()
          case None => Outcome(Aborted(MissingContentLength), [Full], [], file)
          case Some(target) =>
            if ProgressPanics(target, first) then Outcome(Aborted(ProgressPanic), [Full], [], file)
            else Resume(target, [first], [Full], replies[1..], file)
  }

  /** `ProgressBar::new(target, len)` panics: the first body is drawn as
      `len / target * 32` characters, which for `target == 0` and `len > 0` is
      `usize::MAX` of them. With a positive target it only prints. */
  predicate ProgressPanics(target: nat, first: Response)
    requires first.WellFormed()
  {
    target == 0 && first.Data() != []
  }

  /** The `while` loop of `main`, from the state where `received` is held and
      `requests` have been written. */
  function Resume(target: nat, received: seq<Response>, requests: seq<Request>,
                  replies: seq<Reply>, file: seq<byte>): (o: Outcome)
    requires AllWellFormed(received)
    ensures AllWellFormed(o.received)
    decreases |replies|
  {
    var current := TotalLen(received);
    if current == target then Outcome(Complete, requests, received, file + Concat(received))
    else if replies == [] then Outcome(OutOfReplies, requests, received, file)
    else
      var sent := requests + [Range(current, target)];
      match replies[0]
      case Refused => Outcome(Aborted(ConnectionFailed), requests, received, file)
      case Broken => Outcome(Aborted(IoFailed), sent, received, file)
      case Delivered(raw) =>
        match TryFrom(raw)
        case Err => Outcome(Aborted(MalformedResponse), sent, received, file)
        case Ok(r) =>
          TotalLenAppend(received, r);
          Resume(target, received + [r], sent, replies[1..], file)
  }

  /** `main` (connection, requests, accumulator and file), against `replies`. */
  method Download(replies: seq<Reply>, file: seq<byte>) returns (o: Outcome)
    ensures o == Run(replies, file)
  {
    if replies == [] {
      return Outcome(OutOfReplies, [], [], file);
    }
    if replies[0].Refused? {
      return Outcome(Aborted(ConnectionFailed), [], [], file);
    }
    var requests := [Full];
    if replies[0].Broken? {
      return Outcome(Aborted(IoFailed), requests, [], file);
    }
    var parsed := TryFrom(replies[0].raw);
    if parsed.Err? {
      return Outcome(Aborted(MalformedResponse), requests, [], file);
    }
    var response := parsed.value;
    var targetLen := response.headers.ContentLength();
    if targetLen.None? {
      return Outcome(Aborted(MissingContentLength), requests, [], file);
    }
    if ProgressPanics(targetLen.value, response) {
      return Outcome(Aborted(ProgressPanic), requests, [], file);
    }
    var data := new WholeData(response, targetLen.value);
    var i := 1;
    while data.currentLen != data.targetLen
      invariant data.Valid()
      invariant 1 <= i <= |replies|
      invariant Run(replies, file) == Resume(data.targetLen, data.data, requests, replies[i..], file)
      decreases |replies| - i
    {
      if i == |replies| {
        return Outcome(OutOfReplies, requests, data.data, file);
      }
      if replies[i].Refused? {
        return Outcome(Aborted(ConnectionFailed), requests, data.data, file);
      }
      requests := requests + [Range(data.currentLen, data.targetLen)];
      if replies[i].Broken? {
        return Outcome(Aborted(IoFailed), requests, data.data, file);
      }
      parsed := TryFrom(replies[i].raw);
      if parsed.Err? {
        return Outcome(Aborted(MalformedResponse), requests, data.data, file);
      }
      var complete := data.Add(parsed.value);
      i := i + 1;
      if complete {
        break;
      }
    }
    var written := data.Save(file);
    o := Outcome(Complete, requests, data.data, written);
  }

  // ------------------------------------------------------------ properties

  /** The first request is the full fetch and every later one asks for the range from
      the number of body bytes received before it up to the declared length. At most
      one request (the last, which failed) has no response. */
  ghost predicate RequestsFollowTotal(target: nat, received: seq<Response>, requests: seq<Request>)
    requires AllWellFormed(received)
  {
    && requests != [] && requests[0] == Full
    && |received| <= |requests| <= |received| + 1
    && forall i :: 1 <= i < |requests| ==> requests[i] == Range(TotalLen(received[..i]), target)
  }

  /** Response `i` is what reply `i` parsed to: responses are kept in arrival order. */
  ghost predicate ReceivedInOrder(received: seq<Response>, replies: seq<Reply>) {
    && |received| <= |replies|
    && forall i :: 0 <= i < |received| ==> replies[i].Delivered? && TryFrom(replies[i].raw) == Ok(received[i])
  }

  /** No proper prefix of the responses (after the first) already adds up to the target. */
  ghost predicate NotReachedBefore(target: nat, received: seq<Response>)
    requires AllWellFormed(received)
  {
    forall i :: 1 <= i < |received| ==> TotalLen(received[..i]) != target
  }

  /** How the loop ends: `Complete` exactly when the bodies add up to the target,
      and then the file holds them appended in order and every request was answered;
      otherwise the file is untouched. Responses are only ever appended. */
  lemma {:induction false} ResumeEnds(target: nat, received: seq<Response>, requests: seq<Request>,
                                      replies: seq<Reply>, file: seq<byte>)
    requires AllWellFormed(received)
    ensures var o := Resume(target, received, requests, replies, file);
      && |received| <= |o.received| && o.received[..|received|] == received
      && (o.status == Complete <==> TotalLen(o.received) == target)
      && (o.status == Complete ==>
            o.file == file + Concat(o.received) && |o.requests| - |requests| == |o.received| - |received|)
      && (o.status != Complete ==> o.file == file)
      && (o.status == OutOfReplies ==>
            |o.received| - |received| == |replies| && |o.requests| - |requests| == |o.received| - |received|)
    decreases |replies|
  {
    assert received[..|received|] == received;
    if TotalLen(received) != target && replies != [] && replies[0].Delivered? && TryFrom(replies[0].raw).Ok? {
      var r := TryFrom(replies[0].raw).value;
      var next := received + [r];
      TotalLenAppend(received, r);
      var sent := requests + [Range(TotalLen(received), target)];
      ResumeEnds(target, next, sent, replies[1..], file);
      var o := Resume(target, next, sent, replies[1..], file);
      assert o.received[..|received|] == o.received[..|next|][..|received|];
    }
  }

  /** The loop keeps all three facts. */
  lemma {:induction false} ResumeKeeps(target: nat, received: seq<Response>, requests: seq<Request>,
                                       replies: seq<Reply>, file: seq<byte>)
    requires AllWellFormed(received) && received != [] && |requests| == |received|
    requires |received| <= |replies|
    requires RequestsFollowTotal(target, received, requests)
    requires ReceivedInOrder(received, replies)
    requires NotReachedBefore(target, received)
    ensures var o := Resume(target, received, requests, replies[|received|..], file);
      && RequestsFollowTotal(target, o.received, o.requests)
      && ReceivedInOrder(o.received, replies)
      && NotReachedBefore(target, o.received)
    decreases |replies| - |received|
  {
    var k := |received|;
    var current := TotalLen(received);
    var rest := replies[k..];
    if current != target && k < |replies| {
      var sent := requests + [Range(current, target)];
      assert rest[0] == replies[k];
      SentKeeps(target, received, requests);
      if replies[k].Delivered? && TryFrom(replies[k].raw).Ok? {
        var r := TryFrom(replies[k].raw).value;
        var next := received + [r];
        StepKeeps(target, received, requests, replies, r);
        assert rest[1..] == replies[k + 1..];
        ResumeKeeps(target, next, sent, replies, file);
      }
    }
  }

  /** Writing the next range request keeps the requests in step with the total. */
  lemma {:induction false} SentKeeps(target: nat, received: seq<Response>, requests: seq<Request>)
    requires AllWellFormed(received) && |requests| == |received|
    requires RequestsFollowTotal(target, received, requests)
    ensures RequestsFollowTotal(target, received, requests + [Range(TotalLen(received), target)])
  {
    assert received[..|received|] == received;
  }

  /** Storing one more parsed reply keeps all three facts. */
  lemma {:induction false} StepKeeps(target: nat, received: seq<Response>, requests: seq<Request>,
                                     replies: seq<Reply>, r: Response)
    requires AllWellFormed(received) && received != [] && |requests| == |received| < |replies|
    requires RequestsFollowTotal(target, received, requests)
    requires ReceivedInOrder(received, replies)
    requires NotReachedBefore(target, received)
    requires TotalLen(received) != target
    requires replies[|received|].Delivered? && TryFrom(replies[|received|].raw) == Ok(r)
    ensures AllWellFormed(received + [r])
    ensures RequestsFollowTotal(target, received + [r], requests + [Range(TotalLen(received), target)])
    ensures ReceivedInOrder(received + [r], replies)
    ensures NotReachedBefore(target, received + [r])
  {
    TotalLenAppend(received, r);
    PrefixesKept(received, r);
    RequestsStep(target, received, requests, r);
    OrderStep(received, replies, r);
    NotReachedStep(target, received, r);
  }

  /** The prefixes of `received` are prefixes of `received + [r]`. */
  lemma {:induction false} PrefixesKept(received: seq<Response>, r: Response)
    ensures forall i :: 0 <= i <= |received| ==> (received + [r])[..i] == received[..i]
  {
    forall i | 0 <= i <= |received| ensures (received + [r])[..i] == received[..i] { }
  }

  lemma {:induction false} RequestsStep(target: nat, received: seq<Response>, requests: seq<Request>, r: Response)
    requires AllWellFormed(received) && r.WellFormed() && |requests| == |received|
    requires AllWellFormed(received + [r])
    requires forall i :: 0 <= i <= |received| ==> (received + [r])[..i] == received[..i]
    requires RequestsFollowTotal(target, received, requests)
    ensures RequestsFollowTotal(target, received + [r], requests + [Range(TotalLen(received), target)])
  {
    var next, sent := received + [r], requests + [Range(TotalLen(received), target)];
    forall i | 1 <= i < |sent| ensures sent[i] == Range(TotalLen(next[..i]), target) {
      assert next[..i] == received[..i];
      if i == |received| {
        assert received[..i] == received;
      }
    }
  }

  lemma {:induction false} OrderStep(received: seq<Response>, replies: seq<Reply>, r: Response)
    requires |received| < |replies| && ReceivedInOrder(received, replies)
    requires replies[|received|].Delivered? && TryFrom(replies[|received|].raw) == Ok(r)
    ensures ReceivedInOrder(received + [r], replies)
  {
    var next := received + [r];
    forall i | 0 <= i < |next| ensures replies[i].Delivered? && TryFrom(replies[i].raw) == Ok(next[i]) {
      if i < |received| { assert next[i] == received[i]; }
    }
  }

  lemma {:induction false} NotReachedStep(target: nat, received: seq<Response>, r: Response)
    requires AllWellFormed(received) && AllWellFormed(received + [r])
    requires forall i :: 0 <= i <= |received| ==> (received + [r])[..i] == received[..i]
    requires NotReachedBefore(target, received) && TotalLen(received) != target
    ensures NotReachedBefore(target, received + [r])
  {
    var next := received + [r];
    forall i | 1 <= i < |next| ensures TotalLen(next[..i]) != target {
      assert next[..i] == received[..i];
      if i == |received| {
        assert received[..i] == received;
      }
    }
  }

  /** Every run: responses are the parsed replies in arrival order; the first request
      is the full fetch and each range request starts at the number of body bytes
      received so far and ends at the length the first response declared; a run
      completes exactly when the bodies add up to that length, never earlier, and only
      then is the file written, with the bodies appended in order. */
  lemma {:induction false} RunFacts(replies: seq<Reply>, file: seq<byte>)
    ensures var o := Run(replies, file);
      && ReceivedInOrder(o.received, replies)
      && (o.received == [] ==> o.status != Complete && o.file == file && |o.requests| <= 1)
      && (o.received == [] && o.requests != [] ==> o.requests == [Full])
      && (o.received != [] ==>
            && o.received[0].headers.ContentLength().Some?
            && var target := o.received[0].headers.ContentLength().value;
            && RequestsFollowTotal(target, o.received, o.requests)
            && NotReachedBefore(target, o.received)
            && (o.status == Complete <==> TotalLen(o.received) == target))
      && (o.status == Complete ==> o.file == file + Concat(o.received) && |o.requests| == |o.received|)
      && (o.status != Complete ==> o.file == file)
  {
    if replies != [] && replies[0].Delivered? && TryFrom(replies[0].raw).Ok? {
      var first := TryFrom(replies[0].raw).value;
      match first.headers.ContentLength()
      case None =>
        assert Run(replies, file) == Outcome(Aborted(MissingContentLength), [Full], [], file);
      case Some(target) =>
        if ProgressPanics(target, first) {
          assert Run(replies, file) == Outcome(Aborted(ProgressPanic), [Full], [], file);
        } else {
          RunEntersLoop(replies, file, target);
          LoopFacts(target, first, replies, file);
        }
    }
  }

  /** The facts of `RunFacts` for the loop that the first response starts. */
  lemma {:induction false} LoopFacts(target: nat, first: Response, replies: seq<Reply>, file: seq<byte>)
    requires replies != [] && replies[0].Delivered? && TryFrom(replies[0].raw) == Ok(first)
    requires first.headers.ContentLength() == Some(target)
    ensures var o := Resume(target, [first], [Full], replies[1..], file);
      && o.received != [] && o.received[0] == first
      && ReceivedInOrder(o.received, replies)
      && RequestsFollowTotal(target, o.received, o.requests)
      && NotReachedBefore(target, o.received)
      && (o.status == Complete <==> TotalLen(o.received) == target)
      && (o.status == Complete ==> o.file == file + Concat(o.received) && |o.requests| == |o.received|)
      && (o.status != Complete ==> o.file == file)
  {
    assert [first][..1] == [first];
    ResumeKeeps(target, [first], [Full], replies, file);
    ResumeEnds(target, [first], [Full], replies[1..], file);
    var o := Resume(target, [first], [Full], replies[1..], file);
    assert o.received[0] == o.received[..1][0] == first;
  }

  /** A server that answers with responses whose bodies first add up to the target at
      the last one brings the loop to `Complete` holding exactly those responses. */
  lemma {:induction false} ResumeDelivers(target: nat, received: seq<Response>, requests: seq<Request>,
                                          replies: seq<Reply>, file: seq<byte>, more: seq<Response>)
    requires AllWellFormed(received) && AllWellFormed(more) && received != []
    requires AllWellFormed(received + more)
    requires |more| <= |replies|
    requires forall i :: 0 <= i < |more| ==> replies[i].Delivered? && TryFrom(replies[i].raw) == Ok(more[i])
    requires NotReachedBefore(target, received + more) && TotalLen(received + more) == target
    ensures var o := Resume(target, received, requests, replies, file);
      o.status == Complete && o.received == received + more
    decreases |more|
  {
    var all := received + more;
    if more == [] {
      assert all == received;
    } else {
      var r := more[0];
      var next := received + [r];
      var sent := requests + [Range(TotalLen(received), target)];
      assert TotalLen(received) != target by {
        assert all[..|received|] == received;
      }
      assert replies[0].Delivered? && TryFrom(replies[0].raw) == Ok(r);
      TotalLenAppend(received, r);
      assert Resume(target, received, requests, replies, file) == Resume(target, next, sent, replies[1..], file);
      MoveFirst(received, more);
      ShiftDelivered(replies, more);
      ResumeDelivers(target, next, sent, replies[1..], file, more[1..]);
    }
  }

  /** Moving the first of `more` over to `received` keeps their concatenation. */
  lemma {:induction false} MoveFirst(received: seq<Response>, more: seq<Response>)
    requires more != []
    ensures (received + [more[0]]) + more[1..] == received + more
  {
    assert [more[0]] + more[1..] == more;
  }

  /** Dropping the first reply and the first response keeps them paired. */
  lemma {:induction false} ShiftDelivered(replies: seq<Reply>, more: seq<Response>)
    requires more != [] && |more| <= |replies|
    requires forall i :: 0 <= i < |more| ==> replies[i].Delivered? && TryFrom(replies[i].raw) == Ok(more[i])
    ensures forall i :: 0 <= i < |more[1..]| ==>
      replies[1..][i].Delivered? && TryFrom(replies[1..][i].raw) == Ok(more[1..][i])
  {
    forall i | 0 <= i < |more[1..]|
      ensures replies[1..][i].Delivered? && TryFrom(replies[1..][i].raw) == Ok(more[1..][i])
    {
      assert replies[1..][i] == replies[i + 1] && more[1..][i] == more[i + 1];
    }
  }

  /** Reassembly: when the first reply declares `target` and the bodies of the parsed
      replies first add up to it at the last one, the run completes, holds exactly
      those responses, issues one request per response (the full fetch, then each range
      from the running total to `target`), and writes the bodies in arrival order. */
  lemma {:induction false} DeliveryCompletes(replies: seq<Reply>, file: seq<byte>, rs: seq<Response>, target: nat)
    requires rs != [] && |rs| <= |replies|
    requires forall i :: 0 <= i < |rs| ==> replies[i].Delivered? && TryFrom(replies[i].raw) == Ok(rs[i])
    requires rs[0].headers.ContentLength() == Some(target)
    requires AllWellFormed(rs)
    requires NotReachedBefore(target, rs) && TotalLen(rs) == target
    ensures var o := Run(replies, file);
      && o.status == Complete && o.received == rs
      && o.file == file + Concat(rs)
      && RequestsFollowTotal(target, rs, o.requests) && |o.requests| == |rs|
  {
    var first := rs[0];
    assert [first] + rs[1..] == rs;
    assert !ProgressPanics(target, first) by {
      OneResponse(first);
      assert rs[..1] == [first];
      TotalLenMonotone(rs, 1);
    }
    ShiftDelivered(replies, rs);
    ResumeDelivers(target, [first], [Full], replies[1..], file, rs[1..]);
    RunFacts(replies, file);
  }

  /** When the first body already has the declared length, the full fetch is the only
      request and the file receives that body. */
  lemma {:induction false} FirstResponseSuffices(raw: seq<byte>, rest: seq<Reply>, file: seq<byte>)
    requires TryFrom(raw).Ok?
    requires TryFrom(raw).value.headers.ContentLength() == Some(|TryFrom(raw).value.Data()|)
    ensures var o := Run([Delivered(raw)] + rest, file);
      o == Outcome(Complete, [Full], [TryFrom(raw).value], file + TryFrom(raw).value.Data())
  {
    var first := TryFrom(raw).value;
    assert ([Delivered(raw)] + rest)[1..] == rest;
    assert [first][..0] == [];
    assert TotalLen([first]) == |first.Data()|;
    assert Concat([first]) == first.Data();
    assert Run([Delivered(raw)] + rest, file) == Resume(|first.Data()|, [first], [Full], rest, file);
  }

  /** A first response without a usable `Content-Length` line ends the run after the
      full fetch, before any range request and without writing the file. */
  lemma {:induction false} MissingLengthAborts(raw: seq<byte>, rest: seq<Reply>, file: seq<byte>)
    requires TryFrom(raw).Ok?
    requires forall i :: 0 <= i < |Lines(TryFrom(raw).value.headers.all)| ==>
               LengthOf(Lines(TryFrom(raw).value.headers.all)[i]).None?
    ensures Run([Delivered(raw)] + rest, file) == Outcome(Aborted(MissingContentLength), [Full], [], file)
  {
    FirstLengthNone(Lines(TryFrom(raw).value.headers.all));
  }

  /** A first response that declares a length of 0 but brings body bytes ends the run in
      the progress bar, after the full fetch, before any range request and without
      writing the file. */
  lemma {:induction false} ZeroLengthPanics(b: seq<byte>, rest: seq<Reply>, file: seq<byte>)
    requires b != []
    ensures Run([Delivered(Frame(LENGTH + Dec(0), b))] + rest, file)
         == Outcome(Aborted(ProgressPanic), [Full], [], file)
  {
    LengthFrameParses(0, b);
  }

  /** Once the bodies add up to more than the declared length the loop can never reach
      it again: such a run does not complete. In a run the target is then positive (a
      target of 0 with a non-empty first body aborts in the progress bar), and the
      source keeps requesting ranges whose start is past their end. */
  lemma {:induction false} OvershootNeverCompletes(target: nat, received: seq<Response>, requests: seq<Request>,
                                                   replies: seq<Reply>, file: seq<byte>)
    requires AllWellFormed(received) && TotalLen(received) > target
    ensures Resume(target, received, requests, replies, file).status != Complete
  {
    ResumeEnds(target, received, requests, replies, file);
    var o := Resume(target, received, requests, replies, file);
    TotalLenMonotone(o.received, |received|);
  }

  /** The first reply declares `n` and brings `b0`; the range request brings the rest
      `b1`: two requests, and the file receives `b0` then `b1`. */
  lemma {:induction false} TwoPartDownload(n: nat, b0: seq<byte>, b1: seq<byte>, file: seq<byte>)
    requires n <= USIZE_MAX && |b0| + |b1| == n && b1 != []
    ensures var o := Run([Delivered(Frame(LENGTH + Dec(n), b0)), Delivered(Frame([], b1))], file);
      && o.status == Complete
      && o.requests == [Full, Range(|b0|, n)]
      && o.file == file + b0 + b1
  {
    var raw0, raw1 := Frame(LENGTH + Dec(n), b0), Frame([], b1);
    LengthFrameParses(n, b0);
    BareFrameParses(b1);
    TwoReplies(raw0, raw1, file, n);
  }

  /** Two parsed replies whose bodies add up to the length the first declares, the
      first falling short of it. */
  lemma {:induction false} TwoReplies(raw0: seq<byte>, raw1: seq<byte>, file: seq<byte>, n: nat)
    requires TryFrom(raw0).Ok? && TryFrom(raw1).Ok?
    requires TryFrom(raw0).value.headers.ContentLength() == Some(n)
    requires var b0, b1 := TryFrom(raw0).value.Data(), TryFrom(raw1).value.Data();
      |b0| != n && |b0| + |b1| == n
    ensures var o := Run([Delivered(raw0), Delivered(raw1)], file);
      && o.status == Complete
      && o.requests == [Full, Range(|TryFrom(raw0).value.Data()|, n)]
      && o.file == file + TryFrom(raw0).value.Data() + TryFrom(raw1).value.Data()
  {
    var r0 := TryFrom(raw0).value;
    var replies := [Delivered(raw0), Delivered(raw1)];
    assert n != 0;
    RunEntersLoop(replies, file, n);
    assert replies[1..] == [Delivered(raw1)];
    LastRange(n, r0, raw1, file);
  }

  /** With the first response stored and short of `n`, a range reply that brings the
      rest completes the loop. */
  lemma {:induction false} LastRange(n: nat, r0: Response, raw1: seq<byte>, file: seq<byte>)
    requires r0.WellFormed() && TryFrom(raw1).Ok?
    requires |r0.Data()| != n && |r0.Data()| + |TryFrom(raw1).value.Data()| == n
    ensures AllWellFormed([r0])
    ensures var o := Resume(n, [r0], [Full], [Delivered(raw1)], file);
      && o.status == Complete
      && o.requests == [Full, Range(|r0.Data()|, n)]
      && o.file == file + r0.Data() + TryFrom(raw1).value.Data()
  {
    var r1 := TryFrom(raw1).value;
    var b0, b1 := r0.Data(), r1.Data();
    OneResponse(r0);
    assert [Delivered(raw1)] + [] == [Delivered(raw1)];
    ResumeStep(n, [r0], [Full], raw1, [], file);
    TotalLenAppend([r0], r1);
    var sent := [Full] + [Range(|b0|, n)];
    assert sent == [Full, Range(|b0|, n)];
    ResumeDone(n, [r0] + [r1], sent, [], file);
    assert file + (b0 + b1) == file + b0 + b1;
  }

  /** A single stored response holds exactly its own body. */
  lemma {:induction false} OneResponse(r: Response)
    requires r.WellFormed()
    ensures AllWellFormed([r]) && TotalLen([r]) == |r.Data()| && Concat([r]) == r.Data()
  {
    TotalLenAppend([], r);
    assert [] + [r] == [r];
  }

  /** Once the bodies add up to the target, the loop ends and the file gets them. */
  lemma {:induction false} ResumeDone(target: nat, received: seq<Response>, requests: seq<Request>,
                                      replies: seq<Reply>, file: seq<byte>)
    requires AllWellFormed(received) && TotalLen(received) == target
    ensures Resume(target, received, requests, replies, file)
         == Outcome(Complete, requests, received, file + Concat(received))
  {
  }

  /** The first reply, parsed and declaring `target`, starts the loop. */
  lemma {:induction false} RunEntersLoop(replies: seq<Reply>, file: seq<byte>, target: nat)
    requires replies != [] && replies[0].Delivered? && TryFrom(replies[0].raw).Ok?
    requires TryFrom(replies[0].raw).value.headers.ContentLength() == Some(target)
    requires !ProgressPanics(target, TryFrom(replies[0].raw).value)
    ensures AllWellFormed([TryFrom(replies[0].raw).value])
    ensures Run(replies, file) == Resume(target, [TryFrom(replies[0].raw).value], [Full], replies[1..], file)
  {
  }

  /** One loop iteration with a reply that parses: the range request is written and
      the response is stored. */
  lemma {:induction false} ResumeStep(target: nat, received: seq<Response>, requests: seq<Request>,
                                      raw: seq<byte>, rest: seq<Reply>, file: seq<byte>)
    requires AllWellFormed(received) && TotalLen(received) != target && TryFrom(raw).Ok?
    ensures AllWellFormed(received + [TryFrom(raw).value])
    ensures Resume(target, received, requests, [Delivered(raw)] + rest, file)
         == Resume(target, received + [TryFrom(raw).value], requests + [Range(TotalLen(received), target)], rest, file)
  {
    TotalLenAppend(received, TryFrom(raw).value);
    assert ([Delivered(raw)] + rest)[1..] == rest;
  }

  /** All of `replies` parse and bring no body bytes. */
  ghost predicate EmptyReplies(replies: seq<Reply>) {
    forall i :: 0 <= i < |replies| ==>
      replies[i].Delivered? && TryFrom(replies[i].raw).Ok? && TryFrom(replies[i].raw).value.Data() == []
  }

  /** A server that keeps answering with empty bodies gets the same range request over
      and over; the source loops forever, the model runs out of replies. */
  lemma {:induction false} StalledServer(target: nat, received: seq<Response>, requests: seq<Request>,
                                         replies: seq<Reply>, file: seq<byte>)
    requires AllWellFormed(received) && TotalLen(received) != target
    requires EmptyReplies(replies)
    ensures var o := Resume(target, received, requests, replies, file);
      && o.status == OutOfReplies && o.file == file
      && o.requests == requests + seq(|replies|, _ => Range(TotalLen(received), target))
    decreases |replies|
  {
    if replies != [] {
      var r := TryFrom(replies[0].raw).value;
      var same := Range(TotalLen(received), target);
      TotalLenAppend(received, r);
      assert EmptyReplies(replies[1..]) by {
        forall i | 0 <= i < |replies[1..]| ensures replies[1..][i] == replies[i + 1] { }
      }
      StalledServer(target, received + [r], requests + [same], replies[1..], file);
      assert [same] + seq(|replies| - 1, _ => same) == seq(|replies|, _ => same);
    }
  }
}
