/**
 * The `Connection` class of `connection.h` (and its variants in
 * `network.cpp` and `Network.h`). The asynchronous reads and writes of asio
 * become explicit completion methods: each `On…` method is what the
 * completion handler does when the operation it waited for finishes. The
 * callbacks `on_read` / `on_message` and `on_disconnect` are recorded as
 * the payloads delivered and the number of disconnect notifications.
 */
module Connections {
  import opened Wire
  import opened Wrappers
  import opened Frames
  import opened Messages
  import opened Registry

  /** Where the read cycle is: before the first `do_read_header`, waiting for the header, waiting for the body, handing a frame over, or stopped by an error. */
  datatype ReadPhase = Idle | AwaitingHeader | AwaitingBody | Dispatch | Closed

  /** The buffer holds a header while one is awaited, and a whole frame while the body is awaited or handed over. */
  ghost predicate ReadInvariant(phase: ReadPhase, content: Bytes) {
    && (phase == AwaitingHeader ==> |content| == HeaderSize)
    && (phase in {AwaitingBody, Dispatch} ==> IsFrame(content))
  }

  ghost predicate AllFrames(queue: seq<Bytes>) {
    forall i :: 0 <= i < |queue| ==> IsFrame(queue[i])
  }

  /**
   * The write discipline: at most one transmission, of the front frame, is in
   * flight; until a transmission fails one is in flight exactly when the queue
   * is non-empty; after a failure nothing is in flight and the unsent frame
   * stays queued; and what was sent followed by what is queued is exactly what
   * was written, in order.
   */
  ghost predicate WriteInvariant(queue: seq<Bytes>, writing: bool, sent: seq<Bytes>, written: seq<Bytes>, failed: bool) {
    && AllFrames(queue)
    && (writing ==> queue != [])
    && (!failed ==> (writing <==> queue != []))
    && (failed ==> !writing && queue != [])
    && sent + queue == written
  }

  class Connection {
    /** The frame being read (`Connection::message`). */
    const message: Message
    /** Whether read and write errors are reported through `on_disconnect` (true in `connection.h`; the `network.cpp` and `Network.h` variants stop silently). */
    const notifiesDisconnect: bool

    var phase: ReadPhase
    /** The payloads handed to `on_read` / `on_message`, in order. */
    var delivered: seq<Bytes>
    /** Calls of `on_disconnect`. */
    var disconnects: nat

    /** `write_queue`; its front is the frame in flight while `writing`. */
    var writeQueue: seq<Bytes>
    /** An `async_write` of the front frame is outstanding. */
    var writing: bool
    /** The frames whose transmission completed, in order. */
    var sent: seq<Bytes>

    /** Every frame passed to `write`, in call order. */
    ghost var written: seq<Bytes>
    /** A transmission has failed. */
    ghost var writeFailed: bool

    function Notice(): nat
      reads this
    {
      if notifiesDisconnect then 1 else 0
    }

    ghost predicate Valid()
      reads this, message
    {
      && ReadInvariant(phase, message.content)
      && WriteInvariant(writeQueue, writing, sent, written, writeFailed)
      && disconnects == (if phase == Closed then Notice() else 0) + (if writeFailed then Notice() else 0)
    }

    /** The state of the write side, which the read side leaves alone. */
    ghost function WriteSide(): (seq<Bytes>, bool, seq<Bytes>, seq<Bytes>, bool)
      reads this
    {
      (writeQueue, writing, sent, written, writeFailed)
    }

    /** A connection over a freshly accepted or connected socket; nothing is read or written yet. */
    constructor (notifiesDisconnect: bool)
      ensures Valid() && fresh(message)
      ensures this.notifiesDisconnect == notifiesDisconnect
      ensures phase == Idle && delivered == [] && disconnects == 0
      ensures writeQueue == [] && !writing && sent == [] && written == []
    {
      this.notifiesDisconnect := notifiesDisconnect;
      message := new Message();
      phase := Idle;
      delivered := [];
      disconnects := 0;
      writeQueue := [];
      writing := false;
      sent := [];
      written := [];
      writeFailed := false;
    }

    // ----- Read cycle -----

    /** `do_read_header`: shrink the buffer to the header and wait for exactly 4 bytes. */
    method ReadHeader()
      requires Valid() && phase in {Idle, Dispatch}
      modifies this, message
      ensures Valid() && phase == AwaitingHeader
      ensures message.content == Wire.Resize(old(message.content), HeaderSize)
      ensures delivered == old(delivered) && disconnects == old(disconnects)
      ensures WriteSide() == old(WriteSide())
    {
      message.Resize(HeaderSize);
      phase := AwaitingHeader;
    }

    /** `do_read_body`: grow the buffer to the declared size, keeping the header, and wait for the rest. A header declaring less than its own size is refused as malformed. */
    method ReadBody()
      requires Valid() && phase == AwaitingHeader
      modifies this, message
      ensures Valid() && delivered == old(delivered) && WriteSide() == old(WriteSide())
      ensures DecodeHeader(old(message.content)).Failure? ==>
        phase == Closed && message.content == old(message.content) && disconnects == old(disconnects) + Notice()
      ensures DecodeHeader(old(message.content)).Success? ==>
        && phase == AwaitingBody && disconnects == old(disconnects)
        && |message.content| == DecodeHeader(old(message.content)).value
        && message.content == Wire.Resize(old(message.content), |message.content|)
    {
      var header := message.Header();
      assert header == message.content;
      match DecodeHeader(header)
      case Failure(_) =>
        CloseRead();
      case Success(size) =>
        message.Resize(size);
        assert message.content[..HeaderSize] == header;
        phase := AwaitingBody;
    }

    /** The header read completed with the 4 bytes `header`. */
    method OnHeaderRead(header: Bytes)
      requires Valid() && phase == AwaitingHeader && |header| == HeaderSize
      modifies this, message
      ensures Valid() && delivered == old(delivered) && WriteSide() == old(WriteSide())
      ensures DecodeHeader(header).Failure? ==> phase == Closed && disconnects == old(disconnects) + Notice()
      ensures DecodeHeader(header).Success? ==>
        && phase == AwaitingBody && disconnects == old(disconnects)
        && |message.content| == DecodeHeader(header).value
        && message.content[..HeaderSize] == header
        && message.content == Wire.Resize(header, |message.content|)
    {
      message.Fill(0, header);
      assert message.content == header;
      ReadBody();
    }

    /** The body read completed with `body`: hand the payload to `on_read` and start on the next header. */
    method OnBodyRead(body: Bytes)
      requires Valid() && phase == AwaitingBody && |body| == |message.content| - HeaderSize
      modifies this, message
      ensures Valid() && phase == AwaitingHeader
      ensures IsFrame(old(message.content)[..HeaderSize] + body)
      ensures delivered == old(delivered) + [body]
      ensures message.content == old(message.content)[..HeaderSize]
      ensures disconnects == old(disconnects) && WriteSide() == old(WriteSide())
    {
      ghost var header := message.content[..HeaderSize];
      message.Fill(HeaderSize, body);
      assert message.content == header + body;
      assert message.content[..HeaderSize] == header;
      var payload := message.ToString();
      delivered := delivered + [payload];
      phase := Dispatch;
      ReadHeader();
    }

    /** A read completed with an error (including the peer closing): the read cycle ends. */
    method OnReadError()
      requires Valid() && phase in {AwaitingHeader, AwaitingBody}
      modifies this
      ensures Valid() && phase == Closed
      ensures disconnects == old(disconnects) + Notice()
      ensures delivered == old(delivered) && WriteSide() == old(WriteSide())
    {
      CloseRead();
    }

    /** The error branch of both read handlers. */
    method CloseRead()
      requires Valid() && phase in {AwaitingHeader, AwaitingBody}
      modifies this
      ensures Valid() && phase == Closed
      ensures disconnects == old(disconnects) + Notice()
      ensures delivered == old(delivered) && WriteSide() == old(WriteSide())
    {
      phase := Closed;
      if notifiesDisconnect {
        disconnects := disconnects + 1;
      }
    }

    /** The socket yields `stream`, byte after byte, to the reads the cycle issues; the cycle stops when the stream runs out or a header is malformed. */
    method Receive(stream: Bytes)
      requires Valid() && phase == AwaitingHeader
      modifies this, message
      ensures Valid() && WriteSide() == old(WriteSide())
      ensures delivered == old(delivered) + Deframe(stream).payloads
      ensures phase == Closed <==> Deframe(stream).malformed
      ensures disconnects == old(disconnects) + (if phase == Closed then Notice() else 0)
    {
      var i, more := 0, true;
      while more
        invariant 0 <= i <= |stream|
        invariant Valid() && WriteSide() == old(WriteSide())
        invariant more ==> phase == AwaitingHeader
        invariant more ==> old(delivered) + Deframe(stream).payloads == delivered + Deframe(stream[i..]).payloads
        invariant more ==> Deframe(stream).malformed == Deframe(stream[i..]).malformed
        invariant !more ==> delivered == old(delivered) + Deframe(stream).payloads
        invariant !more ==> (phase == Closed <==> Deframe(stream).malformed)
        decreases |stream| - i, more
      {
        ghost var before := delivered;
        ghost var whole := old(delivered) + Deframe(stream).payloads;
        var j, payload;
        j, payload, more := ReceiveFrame(stream, i);
        if more {
          ShiftOne(before, payload, Deframe(stream[j..]).payloads, whole);
        }
        i := j;
      }
    }

    /** Fed exactly the frames a peer's `write` calls put on the wire for `payloads`, the read cycle hands over those payloads, in order, and keeps reading. */
    method ReceiveFrames(payloads: seq<Bytes>)
      requires Valid() && phase == AwaitingHeader
      requires forall i :: 0 <= i < |payloads| ==> Encodable(payloads[i])
      modifies this, message
      ensures Valid() && WriteSide() == old(WriteSide())
      ensures delivered == old(delivered) + payloads
      ensures phase != Closed && disconnects == old(disconnects)
    {
      DeframeFrames(payloads);
      Receive(Stream(payloads));
    }

    /** One turn of the read cycle on the bytes of `stream` from `i`: a header, then a body if the stream holds all of it. */
    method ReceiveFrame(stream: Bytes, i: nat) returns (j: nat, payload: Bytes, more: bool)
      requires Valid() && phase == AwaitingHeader && i <= |stream|
      modifies this, message
      ensures Valid() && WriteSide() == old(WriteSide())
      ensures more ==> && phase == AwaitingHeader && i + HeaderSize <= j <= |stream|
                       && j == i + FromLittleEndian32(stream[i..i + HeaderSize])
                       && payload == stream[i + HeaderSize..j]
                       && delivered == old(delivered) + [payload]
                       && Deframe(stream[i..]).payloads == [payload] + Deframe(stream[j..]).payloads
                       && Deframe(stream[i..]).malformed == Deframe(stream[j..]).malformed
      ensures !more ==> && j == i && delivered == old(delivered) && Deframe(stream[i..]).payloads == []
                        && (phase == Closed <==> Deframe(stream[i..]).malformed)
    {
      j, payload, more := i, [], false;
      if |stream| < i + HeaderSize {
        return;
      }
      DeframeAt(stream, i);
      var size := ReceiveHeader(stream, i);
      if phase == Closed || |stream| < i + size {
        return;
      }
      j, payload := ReceiveBody(stream, i, size);
      more := true;
      assert stream[j..] == stream[i + size..];
    }

    /** The header read of one turn, given the 4 bytes of `stream` at `i`; `size` is the length the header declares. */
    method ReceiveHeader(stream: Bytes, i: nat) returns (size: nat)
      requires Valid() && phase == AwaitingHeader && i + HeaderSize <= |stream|
      modifies this, message
      ensures Valid() && WriteSide() == old(WriteSide()) && delivered == old(delivered)
      ensures size == FromLittleEndian32(stream[i..i + HeaderSize])
      ensures size < HeaderSize <==> phase == Closed
      ensures size >= HeaderSize ==> && phase == AwaitingBody && |message.content| == size
                                     && message.content[..HeaderSize] == stream[i..i + HeaderSize]
    {
      var header := stream[i..i + HeaderSize];
      size := FromLittleEndian32(header);
      OnHeaderRead(header);
    }

    /** The body read of one turn, when `stream` holds the whole frame whose header was read at `i`. */
    method ReceiveBody(stream: Bytes, i: nat, size: nat) returns (j: nat, body: Bytes)
      requires Valid() && phase == AwaitingBody && |message.content| == size && i + size <= |stream|
      requires message.content[..HeaderSize] == stream[i..i + HeaderSize]
      modifies this, message
      ensures Valid() && WriteSide() == old(WriteSide()) && phase == AwaitingHeader
      ensures j == i + size && body == stream[i + HeaderSize..i + size]
      ensures delivered == old(delivered) + [body]
    {
      body := stream[i + HeaderSize..i + size];
      OnBodyRead(body);
      j := i + size;
    }

    // ----- Write cycle -----

    /** `write`: queue the frame, and start transmitting it if nothing was queued before. */
    method Write(frame: Bytes) returns (started: bool)
      requires Valid() && IsFrame(frame)
      modifies this
      ensures Valid()
      ensures writeQueue == old(writeQueue) + [frame] && written == old(written) + [frame]
      ensures started <==> old(writeQueue) == []
      ensures writing == (old(writing) || started)
      ensures sent == old(sent) && disconnects == old(disconnects) && writeFailed == old(writeFailed)
      ensures phase == old(phase) && delivered == old(delivered)
    {
      writeQueue := writeQueue + [frame];
      written := written + [frame];
      started := |writeQueue| == 1;
      if started {
        DoWrite();
      }
    }

    /** `do_write`: start transmitting the front frame. */
    method DoWrite()
      requires writeQueue != []
      modifies this`writing
      ensures writing
    {
      writing := true;
    }

    /** The transmission of the front frame completed, successfully when `ok`. */
    method OnWriteDone(ok: bool)
      requires Valid() && writing
      modifies this
      ensures Valid()
      ensures ok ==> && sent == old(sent) + [old(writeQueue)[0]]
                     && writeQueue == old(writeQueue)[1..]
                     && writing == (writeQueue != [])
                     && disconnects == old(disconnects)
      ensures !ok ==> && sent == old(sent) && writeQueue == old(writeQueue) && !writing
                      && disconnects == old(disconnects) + Notice()
      ensures written == old(written)
      ensures phase == old(phase) && delivered == old(delivered)
    {
      if ok {
        sent := sent + [writeQueue[0]];
        writeQueue := writeQueue[1..];
        writing := false;
        if writeQueue != [] {
          DoWrite();
        }
      } else {
        writing := false;
        writeFailed := true;
        if notifiesDisconnect {
          disconnects := disconnects + 1;
        }
      }
    }
  }

  /** One frame was queued on `c` by `write`, which started its transmission exactly when the queue was empty, and nothing else of it changed. */
  twostate predicate Queued(c: Connection, frame: Bytes)
    reads c
  {
    && c.writeQueue == old(c.writeQueue) + [frame]
    && c.written == old(c.written) + [frame]
    && c.sent == old(c.sent)
    && c.writing == (old(c.writing) || old(c.writeQueue) == [])
    && c.writeFailed == old(c.writeFailed)
    && c.phase == old(c.phase) && c.delivered == old(c.delivered) && c.disconnects == old(c.disconnects)
  }

  /** The buffers of a list of connections, which their invariants read. */
  ghost function Buffers(cs: seq<Connection>): set<Message> {
    set i | 0 <= i < |cs| :: cs[i].message
  }

  /** A connection list as the registries keep it: distinct, well-formed connections of one variant. */
  ghost predicate Registered(cs: seq<Connection>, notifies: bool)
    reads cs, Buffers(cs)
  {
    && NoDuplicates(cs)
    && (forall i :: 0 <= i < |cs| ==> cs[i].Valid() && cs[i].notifiesDisconnect == notifies)
  }
}
