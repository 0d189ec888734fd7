/**
 * The server side of the wire protocol: the handshake that selects a codec,
 * and the serve loop that reads requests until the first header failure,
 * answers each request once, and closes the codec after the last answer.
 *
 * Reads are abstract: the connection is a sequence of read outcomes, and its
 * end counts as `io.EOF`, i.e. as a failed header read. Request handlers run
 * concurrently in the source; the loop below emits their responses in one
 * legal order (read order), and `LegalSchedule` admits every other order.
 */
module Server {
  import Wrappers
  import opened Codec
  import opened Strings

  const MagicNumber: int := 0x3bef5c

  /** The handshake value sent, in a fixed encoding, before any frame. */
  datatype Option = Option(magicNumber: int, codecType: Type)

  const DefaultOption: Option := Option(MagicNumber, GobType)

  /** Why a connection was closed without being served. */
  datatype Rejection = OptionsError(msg: string) | InvalidMagicNumber(magic: int) | InvalidCodecType(codecType: Type)

  /**
   * The checks `ServeConn` makes before serving: the option must decode, its
   * magic number must match, and its codec tag must have a constructor.
   */
  function Handshake(decoded: Wrappers.Result<Option, string>): (r: Wrappers.Result<NewCodecFunc, Rejection>)
    ensures r.Success? <==>
      decoded.Success? && decoded.value.magicNumber == MagicNumber && decoded.value.codecType in NewCodecFuncMap
    ensures r.Success? ==> r.value == NewCodecFuncMap[decoded.value.codecType]
    ensures decoded.Failure? ==> r == Wrappers.Failure(OptionsError(decoded.error))
    ensures decoded.Success? && decoded.value.magicNumber != MagicNumber ==>
      r == Wrappers.Failure(InvalidMagicNumber(decoded.value.magicNumber))
  {
    match decoded
    case Failure(e) => Wrappers.Failure(OptionsError(e))
    case Success(opt) =>
      if opt.magicNumber != MagicNumber then Wrappers.Failure(InvalidMagicNumber(opt.magicNumber))
      else match LookupCodec(opt.codecType)
        case None => Wrappers.Failure(InvalidCodecType(opt.codecType))
        case Some(f) => Wrappers.Success(f)
  }

  /** The default option passes the handshake and selects the gob codec. */
  lemma DefaultOptionAccepted()
    ensures DefaultOption.magicNumber == 0x3bef5c && DefaultOption.codecType == GobType
    ensures Handshake(Wrappers.Success(DefaultOption)) == Wrappers.Success(NewGobCodec)
  {
  }

  /** A client asking for the declared but unimplemented JSON codec is turned away. */
  lemma JsonCodecRejected(magic: int)
    ensures Handshake(Wrappers.Success(Option(magic, JsonType))).Failure?
  {
  }

  // ---------------------------------------------------------------------
  // Reading requests
  // ---------------------------------------------------------------------

  /** What one attempt to read a header and its body produced. */
  datatype ReadOutcome =
    | HeaderFailed(msg: string)
    | Frame(h: Header, body: Wrappers.Result<string, string>)

  /** A request read off the connection; the argument is a string for now. */
  datatype Request = Request(h: Header, argv: string)

  /**
   * The three shapes of the `(req, err)` pair the serve loop distinguishes:
   * no request and an error, a request and an error, a request and no error.
   */
  datatype ReadResult = Fatal(err: string) | Partial(req: Request, err: string) | Ok(req: Request)

  /** `readRequestHeader`: the header, or the read error. */
  function ReadRequestHeader(o: ReadOutcome): (r: Wrappers.Result<Header, string>)
    ensures r.Failure? <==> o.HeaderFailed?
    ensures r.Success? ==> r.value == o.h
  {
    match o
    case HeaderFailed(e) => Wrappers.Failure(e)
    case Frame(h, _) => Wrappers.Success(h)
  }

  /**
   * `readRequest`: a header failure yields no request; a body failure is only
   * logged, and the request (with a zero argument) comes back with no error.
   */
  function ReadRequest(o: ReadOutcome): (r: ReadResult)
    ensures r.Fatal? <==> o.HeaderFailed?
    ensures !r.Partial?
    ensures r.Ok? ==> r.req.h == o.h
    ensures r.Ok? && o.body.Success? ==> r.req.argv == o.body.value
  {
    match ReadRequestHeader(o)
    case Failure(e) => Fatal(e)
    case Success(h) =>
      var argv := match o.body case Success(s) => s case Failure(_) => "";
      Ok(Request(h, argv))
  }

  // ---------------------------------------------------------------------
  // Serving
  // ---------------------------------------------------------------------

  /** What the server does to the codec: write one response, or close it. */
  datatype WireEvent = Send(h: Header, body: Body) | CloseCodec

  const ReplyPrefix: string := "geerpc resp "

  /**
   * The sequence number a reply text names, read the way a client would:
   * the fixed prefix followed by a non-empty run of decimal digits.
   */
  function ReplySeq(t: string): Wrappers.Option<nat>
  {
    if |t| > |ReplyPrefix| && t[..|ReplyPrefix|] == ReplyPrefix
       && forall i :: |ReplyPrefix| <= i < |t| ==> IsDigit(t[i])
    then Wrappers.Some(ParseDecimal(t[|ReplyPrefix|..]))
    else Wrappers.None
  }

  /** The reply text `handleRequest` sends for sequence number `s`; it names `s`. */
  function ReplyText(s: Uint64): (t: string)
    ensures ReplySeq(t) == Wrappers.Some(s as nat)
    // the number is written without leading zeros
    ensures |t| > |ReplyPrefix| && (|t| == |ReplyPrefix| + 1 || t[|ReplyPrefix|] != '0')
  {
    DecimalRoundTrip(s);
    var t := ReplyPrefix + Decimal(s);
    assert t[|ReplyPrefix|..] == Decimal(s);
    assert t[..|ReplyPrefix|] == ReplyPrefix;
    t
  }

  /** Different sequence numbers get different reply texts. */
  lemma ReplyTextInjective(s1: Uint64, s2: Uint64)
    requires ReplyText(s1) == ReplyText(s2)
    ensures s1 == s2
  {
  }

  /** A response whose body names the sequence number of the header it carries. */
  predicate Correlated(e: WireEvent)
  {
    e.Send? && e.body.StringBody? && ReplySeq(e.body.text) == Wrappers.Some(e.h.sequence as nat)
  }

  /** `handleRequest`: one response carrying the request's own header. */
  function HandleRequest(req: Request): (e: WireEvent)
    ensures e.Send? && e.h == req.h
    ensures Correlated(e)
  {
    Send(req.h, StringBody(ReplyText(req.h.sequence)))
  }

  /** The response the loop emits for a read result that does not stop it. */
  function Answer(r: ReadResult): WireEvent
    requires !r.Fatal?
  {
    match r
    case Partial(req, e) => Send(req.h.(error := e), InvalidRequest)
    case Ok(req) => HandleRequest(req)
  }

  /** Index of the first fatal read result, or the length when there is none. */
  function FirstFatal(rs: seq<ReadResult>): (n: nat)
    ensures n <= |rs|
    ensures forall i :: 0 <= i < n ==> !rs[i].Fatal?
    ensures n < |rs| ==> rs[n].Fatal?
    decreases |rs|
  {
    if |rs| == 0 || rs[0].Fatal? then 0 else 1 + FirstFatal(rs[1..])
  }

  /**
   * The `for` loop of `serveCodec`, over the results of successive reads:
   * stop at the first fatal result; answer a result carrying both a request
   * and an error with the placeholder body; dispatch every other request.
   */
  function {:induction false} ServeLoop(rs: seq<ReadResult>): (sent: seq<WireEvent>)
    ensures |sent| == FirstFatal(rs)
    ensures forall i :: 0 <= i < |sent| ==> sent[i] == Answer(rs[i])
    decreases |rs|
  {
    if |rs| == 0 then []
    else match rs[0]
      case Fatal(_) => []
      case Partial(req, e) => [Send(req.h.(error := e), InvalidRequest)] + ServeLoop(rs[1..])
      case Ok(req) => [HandleRequest(req)] + ServeLoop(rs[1..])
  }

  /** Index of the first header failure, or the length when there is none (then `io.EOF` ends it). */
  function FirstHeaderFailure(stream: seq<ReadOutcome>): (n: nat)
    ensures n <= |stream|
    ensures forall i :: 0 <= i < n ==> stream[i].Frame?
    ensures n < |stream| ==> stream[n].HeaderFailed?
    decreases |stream|
  {
    if |stream| == 0 || stream[0].HeaderFailed? then 0 else 1 + FirstHeaderFailure(stream[1..])
  }

  /** The response the server owes for the `i`-th frame read. */
  function Expected(f: ReadOutcome): WireEvent
    requires f.Frame?
  {
    Send(f.h, StringBody(ReplyText(f.h.sequence)))
  }

  /**
   * `serveCodec`: read until the first header failure, answer every request
   * read before it exactly once with its own header and the reply text for
   * its sequence number, and close the codec after the last answer.
   */
  function ServeCodec(stream: seq<ReadOutcome>): (log: seq<WireEvent>)
    ensures var n := FirstHeaderFailure(stream);
      && |log| == n + 1
      && (forall i :: 0 <= i < n ==> log[i] == Expected(stream[i]))
      && log[n] == CloseCodec
      && CloseCodec !in log[..n]
  {
    var rs := seq(|stream|, i requires 0 <= i < |stream| => ReadRequest(stream[i]));
    assert FirstFatal(rs) == FirstHeaderFailure(stream) by {
      FirstFatalOfReads(stream, rs);
    }
    ServeLoop(rs) + [CloseCodec]
  }

  lemma {:induction false} FirstFatalOfReads(stream: seq<ReadOutcome>, rs: seq<ReadResult>)
    requires |rs| == |stream|
    requires forall i :: 0 <= i < |stream| ==> rs[i] == ReadRequest(stream[i])
    ensures FirstFatal(rs) == FirstHeaderFailure(stream)
    decreases |stream|
  {
    if |stream| > 0 {
      FirstFatalOfReads(stream[1..], rs[1..]);
    }
  }

  /** A body that fails to decode still gets the normal reply and does not stop the loop. */
  lemma BodyFailureStillAnswered(before: seq<ReadOutcome>, h: Header, e: string, after: seq<ReadOutcome>)
    requires forall i :: 0 <= i < |before| ==> before[i].Frame?
    ensures var stream := before + [Frame(h, Wrappers.Failure(e))] + after;
      var log := ServeCodec(stream);
      FirstHeaderFailure(stream) == |before| + 1 + FirstHeaderFailure(after)
      && log[|before|] == Send(h, StringBody(ReplyText(h.sequence)))
  {
    var stream := before + [Frame(h, Wrappers.Failure(e))] + after;
    HeaderFailureSplit(before + [Frame(h, Wrappers.Failure(e))], after);
  }

  /** Nothing after a header failure is read: the answers depend only on what precedes it. */
  lemma StopsAtHeaderFailure(before: seq<ReadOutcome>, e: string, after1: seq<ReadOutcome>, after2: seq<ReadOutcome>)
    requires forall i :: 0 <= i < |before| ==> before[i].Frame?
    ensures ServeCodec(before + [HeaderFailed(e)] + after1) == ServeCodec(before + [HeaderFailed(e)] + after2)
  {
    var s1 := before + [HeaderFailed(e)] + after1;
    var s2 := before + [HeaderFailed(e)] + after2;
    HeaderFailureSplit(before, [HeaderFailed(e)] + after1);
    HeaderFailureSplit(before, [HeaderFailed(e)] + after2);
    assert s1 == before + ([HeaderFailed(e)] + after1);
    assert s2 == before + ([HeaderFailed(e)] + after2);
    var l1 := ServeCodec(s1);
    var l2 := ServeCodec(s2);
    assert |l1| == |l2|;
    forall i | 0 <= i < |l1|
      ensures l1[i] == l2[i]
    {
      if i < |before| {
        assert s1[i] == before[i] == s2[i];
      }
    }
  }

  lemma {:induction false} HeaderFailureSplit(before: seq<ReadOutcome>, after: seq<ReadOutcome>)
    requires forall i :: 0 <= i < |before| ==> before[i].Frame?
    ensures FirstHeaderFailure(before + after) == |before| + FirstHeaderFailure(after)
    decreases |before|
  {
    if |before| > 0 {
      assert (before + after)[1..] == before[1..] + after;
      HeaderFailureSplit(before[1..], after);
    } else {
      assert before + after == after;
    }
  }

  // ---------------------------------------------------------------------
  // Connections
  // ---------------------------------------------------------------------

  /** The fate of one connection; in every case the connection ends up closed. */
  datatype ConnResult = Rejected(why: Rejection) | Served(log: seq<WireEvent>)

  /**
   * `ServeConn`: run the handshake; a failure closes the connection without
   * constructing a codec or writing anything, success serves the stream.
   */
  function ServeConn(decoded: Wrappers.Result<Option, string>, stream: seq<ReadOutcome>): (r: ConnResult)
    ensures r.Rejected? <==> Handshake(decoded).Failure?
    ensures r.Rejected? ==> r.why == Handshake(decoded).error
    ensures r.Served? ==> r.log == ServeCodec(stream)
  {
    match Handshake(decoded)
    case Failure(why) => Rejected(why)
    case Success(_) => Served(ServeCodec(stream))
  }

  // ---------------------------------------------------------------------
  // Concurrent handlers
  // ---------------------------------------------------------------------

  /**
   * The handlers hold the `sending` lock one at a time, in any order, and the
   * codec is closed once all of them are done: a legal wire log is any
   * reordering of the answers followed by the close.
   */
  predicate LegalSchedule(stream: seq<ReadOutcome>, wire: seq<WireEvent>)
  {
    var log := ServeCodec(stream);
    && |wire| == |log|
    && wire[|wire| - 1] == CloseCodec
    && multiset(wire[..|wire| - 1]) == multiset(log[..|log| - 1])
  }

  /** The answers owed for a stream: one per frame before the first header failure, in read order. */
  function Answers(stream: seq<ReadOutcome>): (a: seq<WireEvent>)
    ensures |a| == FirstHeaderFailure(stream)
    ensures forall i :: 0 <= i < |a| ==> a[i] == Expected(stream[i]) && Correlated(a[i])
  {
    var n := FirstHeaderFailure(stream);
    seq(n, i requires 0 <= i < n => Expected(stream[i]))
  }

  /** Whatever the schedule, the responses written are exactly the answers owed, each as often as owed. */
  lemma ScheduleAnswersEach(stream: seq<ReadOutcome>, wire: seq<WireEvent>)
    requires LegalSchedule(stream, wire)
    ensures multiset(wire[..|wire| - 1]) == multiset(Answers(stream))
  {
    var log := ServeCodec(stream);
    assert log[..|log| - 1] == Answers(stream);
  }

  /** Whatever the schedule, every response names, in its body, the sequence number of the header it carries. */
  lemma ScheduleCorrelation(stream: seq<ReadOutcome>, wire: seq<WireEvent>)
    requires LegalSchedule(stream, wire)
    ensures forall k :: 0 <= k < |wire| - 1 ==> Correlated(wire[k])
  {
    var expected := Answers(stream);
    ScheduleAnswersEach(stream, wire);
    var body := wire[..|wire| - 1];
    forall k | 0 <= k < |wire| - 1
      ensures Correlated(wire[k])
    {
      assert body[k] == wire[k];
      assert wire[k] in multiset(body);
      assert wire[k] in multiset(expected);
    }
  }
}
