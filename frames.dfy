/**
 * The frame format shared by `message.h`, `network.cpp` and `Network.h`:
 * a 4-byte length header followed by the payload, where the length counts
 * the header itself. These functions are the specification of the
 * `Message` class and of the connection's read cycle.
 */
module Frames {
  import opened Wire
  import opened Wrappers

  /** `Message::header_size`: the header is one `uint32_t`. */
  const HeaderSize: nat := 4

  datatype FrameError = MalformedHeader

  /** The total length `4 + |s|` fits the 32-bit length field. */
  predicate Encodable(s: Bytes) {
    HeaderSize + |s| < Limit32
  }

  /** `operator<<` with a `uint32_t` length: header, then the payload. */
  function Encode(s: Bytes): (f: Bytes)
    requires Encodable(s)
    ensures |f| == HeaderSize + |s|
  {
    LittleEndian32(HeaderSize + |s|) + s
  }

  /** `Message::size`: the total length the header declares. */
  function DeclaredLength(f: Bytes): (n: uint32)
    requires |f| >= HeaderSize
    ensures LittleEndian32(n) == f[..HeaderSize]
  {
    EncodeDecode32(f[..HeaderSize]);
    FromLittleEndian32(f[..HeaderSize])
  }

  /** A buffer whose header declares exactly its own length. */
  predicate IsFrame(f: Bytes) {
    |f| >= HeaderSize && DeclaredLength(f) == |f|
  }

  /**
   * Reading a received header. A declared length below the header size
   * would make the body length negative; it is a malformed header.
   */
  function DecodeHeader(h: Bytes): (r: Result<nat, FrameError>)
    requires |h| == HeaderSize
    ensures r.Success? <==> FromLittleEndian32(h) >= HeaderSize
    ensures r.Success? ==> r.value == FromLittleEndian32(h) && LittleEndian32(r.value) == h
  {
    var n := FromLittleEndian32(h);
    EncodeDecode32(h);
    if n < HeaderSize then Failure(MalformedHeader) else Success(n)
  }

  /** `operator>>` / `to_string`: everything after the header. */
  function Payload(f: Bytes): (s: Bytes)
    requires |f| >= HeaderSize
    ensures f == f[..HeaderSize] + s
  {
    f[HeaderSize..]
  }

  /** The `body()` view: the bytes between the header and the declared length. */
  function BodyView(f: Bytes): (b: Bytes)
    requires |f| >= HeaderSize && HeaderSize <= DeclaredLength(f) <= |f|
    ensures |b| == DeclaredLength(f) - HeaderSize
  {
    f[HeaderSize..DeclaredLength(f)]
  }

  /** The `data()` view: the first `size()` bytes. */
  function DataView(f: Bytes): (d: Bytes)
    requires |f| >= HeaderSize && DeclaredLength(f) <= |f|
    ensures |d| == DeclaredLength(f) && d <= f
  {
    f[..DeclaredLength(f)]
  }

  /** The header of an encoding is the 4-byte encoding of `4 + |s|`, and it declares the frame's own length. */
  lemma EncodeIsFrame(s: Bytes)
    requires Encodable(s)
    ensures Encode(s)[..HeaderSize] == LittleEndian32(HeaderSize + |s|)
    ensures DeclaredLength(Encode(s)) == HeaderSize + |s| == |Encode(s)|
    ensures IsFrame(Encode(s))
  {
    var f := Encode(s);
    assert f[..HeaderSize] == LittleEndian32(HeaderSize + |s|);
    DecodeEncode32(HeaderSize + |s|);
  }

  /** Round trip: decoding an encoding yields exactly the payload. */
  lemma DecodeEncode(s: Bytes)
    requires Encodable(s)
    ensures Payload(Encode(s)) == s
  {
    assert Encode(s)[HeaderSize..] == s;
  }

  /** The other direction: every frame is the encoding of its own payload. */
  lemma EncodeDecode(f: Bytes)
    requires IsFrame(f)
    ensures Encodable(Payload(f)) && Encode(Payload(f)) == f
  {
    EncodeDecode32(f[..HeaderSize]);
    assert f == f[..HeaderSize] + f[HeaderSize..];
  }

  /** After encoding, the views cut the buffer as the accessors promise. */
  lemma EncodeViews(s: Bytes)
    requires Encodable(s)
    ensures DeclaredLength(Encode(s)) - HeaderSize == |s|
    ensures BodyView(Encode(s)) == s
    ensures DataView(Encode(s)) == Encode(s)
    ensures DecodeHeader(Encode(s)[..HeaderSize]) == Success(HeaderSize + |s|)
  {
    EncodeIsFrame(s);
    assert Encode(s)[HeaderSize..HeaderSize + |s|] == s;
  }

  /** Equal encodings have equal payloads. */
  lemma EncodeInjective(s: Bytes, t: Bytes)
    requires Encodable(s) && Encodable(t) && Encode(s) == Encode(t)
    ensures s == t
  {
    DecodeEncode(s);
    DecodeEncode(t);
  }

  // ----- The byte stream seen by the read cycle -----

  /** What the read cycle makes of a byte stream: the payloads it delivers, the bytes it is still waiting on, and whether it stopped at a malformed header. */
  datatype Parse = Parse(payloads: seq<Bytes>, rest: Bytes, malformed: bool)

  /** Reference reading of a stream, frame by frame. */
  function Deframe(stream: Bytes): (p: Parse)
    ensures |p.rest| <= |stream|
    decreases |stream|
  {
    if |stream| < HeaderSize then Parse([], stream, false)
    else
      var n := DeclaredLength(stream);
      if n < HeaderSize then Parse([], stream, true)
      else if |stream| < n then Parse([], stream, false)
      else
        var tail := Deframe(stream[n..]);
        Parse([stream[HeaderSize..n]] + tail.payloads, tail.rest, tail.malformed)
  }

  /**
   * What the reading leaves unread is a suffix of the stream: a malformed
   * header when it stopped at one, otherwise an incomplete frame.
   */
  lemma {:induction false} DeframeRest(stream: Bytes)
    ensures var p := Deframe(stream);
      && p.rest == stream[|stream| - |p.rest|..]
      && (p.malformed ==> |p.rest| >= HeaderSize && DeclaredLength(p.rest) < HeaderSize)
      && (!p.malformed ==> |p.rest| < HeaderSize || DeclaredLength(p.rest) > |p.rest|)
    decreases |stream|
  {
    if |stream| >= HeaderSize {
      var n := DeclaredLength(stream);
      if HeaderSize <= n <= |stream| {
        var tail := stream[n..];
        DeframeRest(tail);
        var r := Deframe(tail).rest;
        assert tail[|tail| - |r|..] == stream[|stream| - |r|..];
      }
    }
  }

  /** How the reading of `stream[i..]` begins, from the header found at `i`. */
  lemma DeframeAt(stream: Bytes, i: nat)
    requires i + HeaderSize <= |stream|
    ensures var n := FromLittleEndian32(stream[i..i + HeaderSize]);
      && (n < HeaderSize ==> Deframe(stream[i..]) == Parse([], stream[i..], true))
      && (HeaderSize <= n && |stream| < i + n ==> Deframe(stream[i..]) == Parse([], stream[i..], false))
      && (HeaderSize <= n <= |stream| - i ==>
            Deframe(stream[i..]) == Parse([stream[i + HeaderSize..i + n]] + Deframe(stream[i + n..]).payloads,
                                          Deframe(stream[i + n..]).rest, Deframe(stream[i + n..]).malformed))
  {
    var rest := stream[i..];
    var n := FromLittleEndian32(stream[i..i + HeaderSize]);
    assert rest[..HeaderSize] == stream[i..i + HeaderSize];
    if HeaderSize <= n <= |stream| - i {
      assert rest[n..] == stream[i + n..];
      assert rest[HeaderSize..n] == stream[i + HeaderSize..i + n];
    }
  }

  /** The stream a sender produces for payloads `ps`: their encodings back to back. */
  function Stream(ps: seq<Bytes>): (b: Bytes)
    requires forall i :: 0 <= i < |ps| ==> Encodable(ps[i])
  {
    if ps == [] then [] else Encode(ps[0]) + Stream(ps[1..])
  }

  /** A whole frame in front of a stream is read as its payload, then the stream itself. */
  lemma DeframeStep(f: Bytes, tail: Bytes)
    requires IsFrame(f)
    ensures Deframe(f + tail)
         == Parse([Payload(f)] + Deframe(tail).payloads, Deframe(tail).rest, Deframe(tail).malformed)
  {
    var s := f + tail;
    assert s[..HeaderSize] == f[..HeaderSize];
    assert DeclaredLength(s) == |f|;
    assert s[|f|..] == tail;
    assert s[HeaderSize..|f|] == Payload(f);
  }

  /** One more frame in front of a stream whose reading is known. */
  lemma DeframeCons(ps: seq<Bytes>, tail: Bytes, d: Parse)
    requires ps != [] && forall i :: 0 <= i < |ps| ==> Encodable(ps[i])
    requires Deframe(Stream(ps[1..]) + tail) == Parse(ps[1..] + d.payloads, d.rest, d.malformed)
    ensures Deframe(Stream(ps) + tail) == Parse(ps + d.payloads, d.rest, d.malformed)
  {
    var f := Encode(ps[0]);
    var rest := Stream(ps[1..]) + tail;
    assert IsFrame(f) && Payload(f) == ps[0] by {
      EncodeIsFrame(ps[0]);
      DecodeEncode(ps[0]);
    }
    assert Stream(ps) + tail == f + rest;
    DeframeStep(f, rest);
    var later := ps[1..] + d.payloads;
    assert Deframe(Stream(ps) + tail) == Parse([ps[0]] + later, d.rest, d.malformed);
    ConsAppend(ps, d.payloads);
  }

  /** Moving one element from the front of the unread part to the end of the read part keeps their concatenation. */
  lemma ShiftOne<T>(done: seq<T>, x: T, todo: seq<T>, whole: seq<T>)
    requires whole == done + ([x] + todo)
    ensures whole == (done + [x]) + todo
  {
  }

  lemma ConsAppend<T>(xs: seq<T>, ys: seq<T>)
    requires xs != []
    ensures [xs[0]] + (xs[1..] + ys) == xs + ys
  {
    assert xs == [xs[0]] + xs[1..];
  }

  /** A stream of whole frames followed by any tail is read as those payloads, in order, then whatever the tail gives. */
  lemma {:induction false} DeframeStream(ps: seq<Bytes>, tail: Bytes)
    requires forall i :: 0 <= i < |ps| ==> Encodable(ps[i])
    ensures Deframe(Stream(ps) + tail)
         == Parse(ps + Deframe(tail).payloads, Deframe(tail).rest, Deframe(tail).malformed)
  {
    if ps == [] {
      assert Stream(ps) + tail == tail;
    } else {
      DeframeStream(ps[1..], tail);
      DeframeCons(ps, tail, Deframe(tail));
    }
  }

  /** Fed exactly the encodings of `ps`, the read cycle delivers `ps` and waits for nothing. */
  lemma DeframeFrames(ps: seq<Bytes>)
    requires forall i :: 0 <= i < |ps| ==> Encodable(ps[i])
    ensures Deframe(Stream(ps)) == Parse(ps, [], false)
  {
    DeframeStream(ps, []);
    assert Stream(ps) + [] == Stream(ps);
  }

  // ----- The code as written (see README, Findings) -----

  /** `Network.h` line 62: the total length passes through `static_cast<uint16_t>`. */
  function NarrowLength(payloadSize: nat): (n: uint32)
    ensures n < Limit16
  {
    (HeaderSize + payloadSize) % Limit16
  }

  /** Below 65536 the cast changes nothing. */
  lemma NarrowLengthAgrees(payloadSize: nat)
    requires HeaderSize + payloadSize < Limit16
    ensures NarrowLength(payloadSize) == HeaderSize + payloadSize
  {
  }

  /** From 65536 on, the buffer is resized below the `4 + |s|` bytes the two `memcpy` calls write. */
  lemma NarrowLengthOverruns(payloadSize: nat)
    requires HeaderSize + payloadSize >= Limit16
    ensures NarrowLength(payloadSize) < HeaderSize + payloadSize
  {
  }

  /** A 65532-byte payload gets a buffer of zero bytes. */
  lemma NarrowLengthExample()
    ensures NarrowLength(65532) == 0
  {
  }

  /** `Message::body_size` as written: `size() - header_size()` in `uint32_t`, wrapping below zero. */
  function BodySizeAsWritten(declared: uint32): (n: uint32)
    ensures declared >= HeaderSize ==> n == declared - HeaderSize
  {
    (declared - HeaderSize) % Limit32
  }

  /** A header declaring fewer than 4 bytes asks the body read for about 4 GiB, into a buffer of `declared` bytes. */
  lemma BodySizeUnderflows(declared: uint32)
    requires declared < HeaderSize
    ensures BodySizeAsWritten(declared) == Limit32 - HeaderSize + declared
    ensures BodySizeAsWritten(declared) > declared
  {
  }
}
