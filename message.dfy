/**
 * The `Message` class of `message.h` (repeated in `network.cpp` and
 * `Network.h`): a byte buffer `content` that holds one frame. Its accessors
 * read the buffer; `operator<<` rewrites it in place.
 */
module Messages {
  import opened Wire
  import opened Frames

  class Message {
    var content: Bytes

    /** `Message() = default`: an empty buffer. */
    constructor ()
      ensures content == []
    {
      content := [];
    }

    /** `Message(const std::string&)`: encodes `s` with a 32-bit length. */
    constructor FromString(s: Bytes)
      requires Encodable(s)
      ensures content == Encode(s)
    {
      content := [];
      new;
      Put(s);
    }

    /** `Message(const std::string&)` of `Network.h`, whose `operator<<` narrows the length. */
    constructor FromStringNarrow(s: Bytes)
      requires HeaderSize + |s| < Limit16
      ensures content == Encode(s)
    {
      content := [];
      new;
      PutNarrow(s);
    }

    /** `size()`: the length whose 4-byte encoding is the header. */
    function Size(): (n: uint32)
      reads this
      requires |content| >= HeaderSize
      ensures LittleEndian32(n) == content[..HeaderSize]
    {
      EncodeDecode32(content[..HeaderSize]);
      DeclaredLength(content)
    }

    /** `body_size()`, for a header that declares at least its own size. */
    function BodySize(): (n: nat)
      reads this
      requires |content| >= HeaderSize && Size() >= HeaderSize
      ensures HeaderSize + n == Size()
      ensures IsFrame(content) ==> n == |Payload(content)|
    {
      Size() - HeaderSize
    }

    /** `header()`: the first four bytes. */
    function Header(): (h: Bytes)
      reads this
      requires |content| >= HeaderSize
      ensures |h| == HeaderSize && h <= content
      ensures FromLittleEndian32(h) == Size()
    {
      content[..HeaderSize]
    }

    /** `body()`: the bytes from the header up to the declared size. */
    function Body(): (b: Bytes)
      reads this
      requires |content| >= HeaderSize && HeaderSize <= Size() <= |content|
      ensures |b| == BodySize()
      ensures IsFrame(content) ==> Header() + b == content
    {
      BodyView(content)
    }

    /** `data()`: the whole frame, as far as the header declares it. */
    function Data(): (d: Bytes)
      reads this
      requires |content| >= HeaderSize && Size() <= |content|
      ensures |d| == Size() && d <= content
      ensures IsFrame(content) ==> d == content
    {
      DataView(content)
    }

    /** `operator>>` and `to_string()`: everything after the header. */
    function ToString(): (s: Bytes)
      reads this
      requires |content| >= HeaderSize
      ensures Header() + s == content
      ensures IsFrame(content) ==> Encodable(s) && Encode(s) == content
    {
      if IsFrame(content) then EncodeDecode(content); Payload(content) else Payload(content)
    }

    /** `content.resize(n)`. */
    method Resize(n: nat)
      modifies this
      ensures content == Wire.Resize(old(content), n)
    {
      content := Wire.Resize(content, n);
    }

    /** `memcpy(content.data() + offset, bytes, |bytes|)`, within the buffer. */
    method Fill(offset: nat, bytes: Bytes)
      requires offset + |bytes| <= |content|
      modifies this
      ensures |content| == |old(content)|
      ensures content == old(content)[..offset] + bytes + old(content)[offset + |bytes|..]
    {
      content := content[..offset] + bytes + content[offset + |bytes|..];
    }

    /** `operator<<` of `message.h` and `network.cpp`: resize to `4 + |s|`, copy the header, copy the payload. */
    method Put(s: Bytes)
      requires Encodable(s)
      modifies this
      ensures content == Encode(s)
    {
      var size: uint32 := HeaderSize + |s|;
      Resize(size);
      Fill(0, LittleEndian32(size));
      Fill(HeaderSize, s);
    }

    /** `operator<<` of `Network.h`: the same, once the length has passed through `uint16_t`. */
    method PutNarrow(s: Bytes)
      requires HeaderSize + |s| < Limit16
      modifies this
      ensures content == Encode(s)
    {
      var size: uint32 := NarrowLength(|s|);
      NarrowLengthAgrees(|s|);
      Resize(size);
      Fill(0, LittleEndian32(size));
      Fill(HeaderSize, s);
    }
  }
}
