/**
 * The write discipline of the gob codec. Encoding itself is abstract: each
 * encode step either succeeds, appending its piece to the write buffer, or
 * fails and appends nothing. The buffer reaches the connection only on a
 * flush, whose outcome is abstract too. Like Go's buffered writer, the
 * buffer remembers the first failed write to the connection ("stuck") and
 * refuses every later write and flush with that error.
 */
module GobCodec {
  import opened Wrappers
  import opened Codec

  /** What an encode step appends to the buffer. */
  datatype Piece = HeaderPiece(h: Header) | BodyPiece(body: Body)

  /** The outcome of one call to the gob encoder. */
  datatype EncodeOutcome = Encoded | EncodeError(msg: string)

  /**
   * The outcome of writing the buffer to the connection: all of it, or a
   * failure after the first `sent` pieces (a piece cut in the middle counts
   * as not sent).
   */
  datatype FlushOutcome = Flushed | FlushFailed(sent: nat, msg: string)

  /** The externally visible steps of a `Write`, in the order they happen. */
  datatype Step = EncodeHeader | EncodeBody | FlushBuffer | CloseConn

  /**
   * A gob codec bound to a connection: the buffered writer's pending pieces,
   * everything delivered to the connection so far, whether the connection is
   * closed, and the error the buffered writer has recorded, if any.
   */
  datatype Gob = Gob(buffered: seq<Piece>, wire: seq<Piece>, connClosed: bool, stuck: Option<string>)

  datatype WriteResult = WriteResult(err: Option<string>, codec: Gob, steps: seq<Step>)

  /** The error a write to an already closed connection reports. */
  const ClosedConnError: string := "use of closed network connection"

  /** `NewGobCodec`: an empty buffer over an open connection. */
  function NewGob(): (c: Gob)
    ensures c.buffered == [] && c.wire == [] && !c.connClosed && c.stuck.None?
  {
    Gob([], [], false, None)
  }

  /**
   * The buffered writer's `Flush`: nothing happens when the buffer is empty or
   * already stuck; otherwise the buffer is written to the connection, and a
   * failed write (always the case on a closed connection) delivers a prefix,
   * keeps the rest, and leaves the writer stuck.
   */
  function Flush(c: Gob, outcome: FlushOutcome): (r: Gob)
    // nothing is lost or duplicated: the pieces only move from buffer to wire
    ensures r.wire + r.buffered == c.wire + c.buffered
    ensures |c.wire| <= |r.wire| && r.wire[..|c.wire|] == c.wire
    ensures r.connClosed == c.connClosed
    // a stuck writer does nothing; a closed connection receives nothing
    ensures c.stuck.Some? ==> r == c
    ensures c.connClosed ==> r.wire == c.wire
    // the writer ends up without an error exactly when it had none and the buffer was empty or fully written
    ensures r.stuck.None? <==> c.stuck.None? && (c.buffered == [] || (!c.connClosed && outcome.Flushed?))
    ensures r.stuck.None? ==> r.buffered == []
    // on an open connection a successful write delivers the whole buffer
    ensures !c.connClosed && c.stuck.None? && outcome.Flushed? ==> r.wire == c.wire + c.buffered && r.stuck.None?
  {
    if c.stuck.Some? || |c.buffered| == 0 then c
    else if c.connClosed then c.(stuck := Some(ClosedConnError))
    else match outcome
      case Flushed => c.(wire := c.wire + c.buffered, buffered := [])
      case FlushFailed(sent, msg) =>
        var k := if sent < |c.buffered| then sent else |c.buffered|;
        assert c.buffered == c.buffered[..k] + c.buffered[k..];
        c.(wire := c.wire + c.buffered[..k], buffered := c.buffered[k..], stuck := Some(msg))
  }

  /** What an encode step actually reports: a stuck buffer refuses every write with its error. */
  function Effective(c: Gob, outcome: EncodeOutcome): (o: EncodeOutcome)
    ensures c.stuck.Some? ==> o == EncodeError(c.stuck.value)
    ensures c.stuck.None? ==> o == outcome
  {
    if c.stuck.Some? then EncodeError(c.stuck.value) else outcome
  }

  function Encode(c: Gob, p: Piece, outcome: EncodeOutcome): (r: Gob)
    ensures r.wire == c.wire && r.connClosed == c.connClosed && r.stuck == c.stuck
    ensures outcome.EncodeError? ==> r.buffered == c.buffered
  {
    if outcome.Encoded? then c.(buffered := c.buffered + [p]) else c
  }

  /** `Close`: closes the underlying connection and returns its error. */
  function Close(c: Gob, connErr: Option<string>): (r: (Option<string>, Gob))
    ensures r.1.connClosed
    ensures r.1.wire == c.wire && r.1.buffered == c.buffered && r.1.stuck == c.stuck
    ensures r.0 == connErr
  {
    (connErr, c.(connClosed := true))
  }

  /**
   * `Write(h, body)`: encode the header, then (only if that worked) the body;
   * the deferred block always flushes, ignoring the flush's error, and, if
   * either encode failed, closes.
   */
  function Write(c: Gob, h: Header, body: Body, headerOutcome: EncodeOutcome, bodyOutcome: EncodeOutcome,
                 flushOutcome: FlushOutcome): (r: WriteResult)
    // the header is always encoded first
    ensures |r.steps| >= 2 && r.steps[0] == EncodeHeader
    // the body is encoded iff the header was encoded, and then right after it
    ensures EncodeBody in r.steps <==> Effective(c, headerOutcome).Encoded?
    ensures EncodeBody in r.steps ==> r.steps[1] == EncodeBody
    // every path flushes exactly once, and a close comes only after the flush
    ensures multiset(r.steps)[FlushBuffer] == 1
    ensures forall i, j :: 0 <= i < |r.steps| && 0 <= j < |r.steps| && r.steps[i] == CloseConn && r.steps[j] == FlushBuffer ==> j < i
    // the error is the first encode error (a stuck buffer's error first of all); the flush's is dropped
    ensures r.err == (if Effective(c, headerOutcome).EncodeError? then Some(Effective(c, headerOutcome).msg)
                      else if bodyOutcome.EncodeError? then Some(bodyOutcome.msg) else None)
    ensures c.stuck.Some? ==> r.err == c.stuck && r.codec.wire == c.wire
    // the codec closes exactly when there is an error
    ensures CloseConn in r.steps <==> r.err.Some?
    ensures r.codec.connClosed <==> c.connClosed || r.err.Some?
    // what was written before stays written
    ensures |c.wire| <= |r.codec.wire| && r.codec.wire[..|c.wire|] == c.wire
  {
    var ho := Effective(c, headerOutcome);
    var afterHeader := Encode(c, HeaderPiece(h), ho);
    if ho.EncodeError? then
      var flushed := Flush(afterHeader, flushOutcome);
      WriteResult(Some(ho.msg), Close(flushed, None).1, [EncodeHeader, FlushBuffer, CloseConn])
    else
      var afterBody := Encode(afterHeader, BodyPiece(body), bodyOutcome);
      var flushed := Flush(afterBody, flushOutcome);
      if bodyOutcome.EncodeError? then
        WriteResult(Some(bodyOutcome.msg), Close(flushed, None).1, [EncodeHeader, EncodeBody, FlushBuffer, CloseConn])
      else
        WriteResult(None, flushed, [EncodeHeader, EncodeBody, FlushBuffer])
  }

  /** A codec that can still deliver: open, nothing pending, no recorded error. */
  predicate Ready(c: Gob)
  {
    !c.connClosed && c.buffered == [] && c.stuck.None?
  }

  /**
   * What a `Write` whose flush succeeds delivers to a ready codec: the whole
   * frame on success, nothing on a header failure, and the header alone on a
   * body failure -- in which case the connection is closed behind it.
   */
  lemma WriteDelivers(c: Gob, h: Header, body: Body, ho: EncodeOutcome, bo: EncodeOutcome)
    requires Ready(c)
    ensures var r := Write(c, h, body, ho, bo, Flushed);
      && (r.err.None? ==> r.codec.wire == c.wire + [HeaderPiece(h), BodyPiece(body)] && Ready(r.codec))
      && (ho.EncodeError? ==> r.codec.wire == c.wire && r.codec.connClosed)
      && (ho.Encoded? && bo.EncodeError? ==> r.codec.wire == c.wire + [HeaderPiece(h)] && r.codec.connClosed)
  {
  }

  /**
   * A failed flush is not reported: `Write` returns no error and leaves the
   * connection open, yet only the first `sent` pieces of the frame reached
   * it -- none (the frame is lost) or the header alone (a half-written frame).
   */
  lemma FlushFailureUnreported(c: Gob, h: Header, body: Body, sent: nat, msg: string)
    requires Ready(c)
    ensures var r := Write(c, h, body, Encoded, Encoded, FlushFailed(sent, msg));
      && r.err.None?
      && !r.codec.connClosed
      && r.codec.stuck == Some(msg)
      && (sent == 0 ==> r.codec.wire == c.wire)
      && (sent == 1 ==> r.codec.wire == c.wire + [HeaderPiece(h)])
  {
    var r := Write(c, h, body, Encoded, Encoded, FlushFailed(sent, msg));
    var frame := [HeaderPiece(h), BodyPiece(body)];
    assert c.buffered + [HeaderPiece(h)] + [BodyPiece(body)] == frame;
    if sent == 1 {
      assert frame[..1] == [HeaderPiece(h)];
    }
  }

  /** The write after an unreported flush failure fails with that error, delivers nothing, and closes. */
  lemma NextWriteAfterFlushFailure(c: Gob, h1: Header, b1: Body, sent: nat, msg: string,
                                   h2: Header, b2: Body, ho2: EncodeOutcome, bo2: EncodeOutcome, fo2: FlushOutcome)
    requires Ready(c)
    ensures var r1 := Write(c, h1, b1, Encoded, Encoded, FlushFailed(sent, msg));
      var r2 := Write(r1.codec, h2, b2, ho2, bo2, fo2);
      r1.err.None? && r2.err == Some(msg) && r2.codec.wire == r1.codec.wire && r2.codec.connClosed
  {
  }

  /** Once a `Write` has failed, every later `Write` leaves the connection closed and delivers nothing. */
  lemma FailedWriteIsFinal(c: Gob, h1: Header, b1: Body, ho1: EncodeOutcome, bo1: EncodeOutcome, fo1: FlushOutcome,
                           h2: Header, b2: Body, ho2: EncodeOutcome, bo2: EncodeOutcome, fo2: FlushOutcome)
    requires Write(c, h1, b1, ho1, bo1, fo1).err.Some?
    ensures var r1 := Write(c, h1, b1, ho1, bo1, fo1);
      var r2 := Write(r1.codec, h2, b2, ho2, bo2, fo2);
      r2.codec.wire == r1.codec.wire && r2.codec.connClosed
  {
  }

  /** A run of writes on a ready codec whose encodes and flushes all succeed delivers the frames in order, each whole. */
  function WriteAll(c: Gob, frames: seq<(Header, Body)>): (r: Gob)
    requires Ready(c)
    ensures Ready(r)
    ensures |r.wire| == |c.wire| + 2 * |frames|
    ensures r.wire[..|c.wire|] == c.wire
    ensures forall k :: 0 <= k < |frames| ==>
      r.wire[|c.wire| + 2 * k] == HeaderPiece(frames[k].0) && r.wire[|c.wire| + 2 * k + 1] == BodyPiece(frames[k].1)
    decreases |frames|
  {
    if |frames| == 0 then c
    else
      var next := Write(c, frames[0].0, frames[0].1, Encoded, Encoded, Flushed).codec;
      WriteDelivers(c, frames[0].0, frames[0].1, Encoded, Encoded);
      assert next.wire == c.wire + [HeaderPiece(frames[0].0), BodyPiece(frames[0].1)];
      var r := WriteAll(next, frames[1..]);
      assert r.wire[..|next.wire|] == next.wire;
      assert forall k :: 1 <= k < |frames| ==> frames[k] == frames[1..][k - 1];
      r
  }
}
