# Network transport layer — a Dafny model

This project models the transport layer of the Network repository: the
length-prefixed frame format of `Message`, the read and write cycles of
`Connection`, the connection registries of `Server` and `Network` with
their broadcasts, and the accept and connect loops. It proves properties
about that model.

A frame is a 4-byte length header followed by the payload. The length
counts the header itself.

There are three copies of `Message` and `Connection`:

- `message.h` and `connection.h`, used by `server.cpp`;
- `network.cpp`;
- `Network.h`.

They differ in three ways:

- The `Network.h` encoding narrows the length through `uint16_t`.
- `connection.h` reports read and write errors through `on_disconnect`. The other two copies stop silently.
- `Network.h` hands the whole `Message` to `on_message`, not its `to_string()`. The `on_message` lambda that `Network` installs calls `to_string()` on it and evaluates the result (`Network.h:232-233`), so both copies hand the same payload bytes to the evaluator.

The model has one `Message` class and one `Connection` class.

- `Message.Put` models the 32-bit encoding. `Message.PutNarrow` models the narrowing one.
- A `notifiesDisconnect` flag on `Connection` selects the error behaviour.

## How the model is built

- **Bytes and header.** Bytes are `seq<byte>`. A payload `std::string` is its byte sequence. The header is copied with `memcpy` in host byte order; the model fixes it as little-endian (`Wire.LittleEndian32`).
- **Completion handlers.** Each asio completion handler is an explicit method, called with the outcome of the operation it waited for:
  - `OnHeaderRead(header)`, `OnBodyRead(body)` and `OnReadError()` for reads;
  - `OnWriteDone(ok)` for writes;
  - `OnAccept`, `OnConnect` and `OnDisconnect` for the registries and loops;
  - `OnConnectionHeaderRead`, `OnConnectionReadError` and `OnConnectionWriteDone` on `Server`, which run a listed connection's handler and then, when the connection calls `on_disconnect`, the removal from the list that `server.cpp` installs as that callback.
- **Callbacks.** `on_read` / `on_message` are recorded as the sequence `delivered` of payloads handed over. `on_disconnect` is recorded as the count `disconnects`.
- **Write queue.** The write queue is a sequence field. `writing` says a transmission of its front frame is outstanding. The ghost fields `written` and `writeFailed` record every frame passed to `write` and whether a transmission failed.
- **Reading a whole stream.** `Frames.Deframe` is a reference reading of a byte stream, frame by frame. `Connection.Receive` runs the read cycle over a byte stream. Its contract ties what is delivered to that reading. `Connection.ReceiveFrames` shows that, given the concatenated encodings of `p1 … pn`, the cycle delivers exactly `p1 … pn` in order.
- **Registries.**
  - `Server.connections` is the `std::list<std::shared_ptr<Connection>>`: a sequence of connection objects.
  - `Network.connections` is the `std::list<std::weak_ptr<Connection>>`. Whether an entry's connection is still alive (`weak_ptr::lock`) is a parameter `live` of the broadcast.
  - A ghost log `reached` records, in call order, the connections the broadcasts called `write` on.
- **Sockets and evaluator values.** Sockets are abstract numbers. An accept or connect completes with `Succeeded(socket)` or `Failed(code)`. The values of the evaluator that the argument checks inspect form the datatype `Networks.Value`.

Behaviour of the code worth noting:

- **Registries.** No copy keeps a history of earlier messages for connections that join later. `Network` never removes an entry from its list: dead entries are skipped by the broadcast and stay in the list.
- **Write errors.** In `connection.h` a write error calls `on_disconnect` but does not end the read cycle.
  - A connection can therefore report a disconnect twice, once from each cycle.
  - `Connection.Valid` states that the count is the sum of the two.
  - `Server.OnDisconnect` is idempotent (`Registry.WithoutIdempotent`), so the second report erases nothing.
  - `Server.Valid` states that no listed connection has reported a disconnect: a report erases the connection at once.
- **Read errors.** In `network.cpp` and `Network.h` a read error calls nothing at all.
- **`to_string`.** `message.h` has no `to_string`, but `connection.h:43` calls one. The model uses the `to_string` of `network.cpp` (`operator>>` into a fresh string).
- **Short headers.** A header that declares fewer than 4 bytes has no error path in the code (see Findings). The model treats it as a malformed header that ends the read cycle like a read error.

## Model

| member | source | states |
|---|---|---|
| Wire.LittleEndian32 | message.h:54-56 | the header `memcpy` writes the length as four bytes, least significant first |
| Wire.FromLittleEndian32 | message.h:24-29 | the header `memcpy` reads four bytes as a length: the first byte is its lowest digit, the last its highest |
| Wire.DecodeEncode32 | message.h:24-29 | reading back the 4-byte header of a length gives that length |
| Wire.EncodeDecode32 | message.h:24-29 | re-encoding the value read from any 4-byte header gives the same four bytes |
| Wire.Resize | message.h:55 | `std::vector::resize`: the new length is `n`, the first bytes are kept and the rest are zero |
| Frames.DeclaredLength | message.h:24-29 | `size()` is the length whose 4-byte encoding is the buffer's header |
| Frames.Encode | message.h:52-58 | the encoding of `s` is `4 + \|s\|` bytes long |
| Frames.EncodeIsFrame | message.h:54-56 | the header of the encoding is the 4-byte encoding of `4 + \|s\|`, and `size()` equals `content.size()` equals `4 + \|s\|` |
| Frames.DecodeEncode | message.h:60-64 | `operator>>` of the encoding of `s` yields exactly `s` |
| Frames.EncodeDecode | network.cpp:73-77 | every buffer whose header declares its own length is the encoding of its payload |
| Frames.EncodeViews | message.h:31-50 | after encoding, `body_size()` is `\|s\|`, `body()` is the payload, `data()` is the whole buffer and the header decodes to `4 + \|s\|` |
| Frames.EncodeInjective | message.h:52-58 | equal encodings come from equal payloads |
| Frames.DecodeHeader | connection.h:39-40 | a received header is accepted exactly when it declares at least 4 bytes, with that length; shorter ones are a malformed header |
| Frames.Payload | network.cpp:73-77 | the buffer is its header followed by the payload |
| Frames.BodyView | message.h:42-45 | `body()` has `size() - 4` bytes |
| Frames.DataView | message.h:47-50 | `data()` is the prefix of `size()` bytes |
| Frames.Deframe | connection.h:23-50 | the reference reading of a byte stream, frame by frame; it leaves no more than the stream unread |
| Frames.DeframeRest | connection.h:23-50 | what the reading leaves unread is a suffix of the stream: a header declaring fewer than 4 bytes when it stopped there, otherwise less than a header or an incomplete frame |
| Frames.DeframeAt | connection.h:23-50 | how the reading of a stream starts from the header at a position: malformed, waiting for more bytes, or one payload followed by the reading of the rest |
| Frames.DeframeStep | connection.h:37-50 | a whole frame in front of a stream is read as its payload, then the stream |
| Frames.DeframeStream | connection.h:23-50 | the encodings of `p1 … pn` followed by any tail are read as `p1 … pn`, then whatever the tail gives |
| Frames.DeframeFrames | connection.h:23-50 | the encodings of `p1 … pn` back to back are read as exactly `p1 … pn`, with nothing left over |
| Frames.NarrowLength | Network.h:62 | the length stored by the `Network.h` encoding is below 65536 |
| Frames.NarrowLengthAgrees | Network.h:62 | below 65536 the `uint16_t` cast keeps the length |
| Frames.NarrowLengthOverruns | Network.h:62-65 | from 65536 on, the buffer is sized below the bytes the two `memcpy` calls write |
| Frames.NarrowLengthExample | Network.h:62 | a 65532-byte payload gets a zero-byte buffer |
| Frames.BodySizeAsWritten | message.h:31-34 | `body_size()` is `size() - 4` when the header declares at least 4 bytes |
| Frames.BodySizeUnderflows | message.h:31-34 | below 4 the unsigned subtraction wraps to more than 4 GiB, far beyond the declared length |
| Messages.Message.constructor | message.h:10 | the default `Message` is empty |
| Messages.Message.FromString | message.h:12-15 | the string constructor leaves exactly the encoding of `s` |
| Messages.Message.FromStringNarrow | Network.h:16-19 | the `Network.h` string constructor leaves the encoding of `s` when `4 + \|s\| < 65536` |
| Messages.Message.Size | message.h:24-29 | `size()` is the length whose 4-byte encoding is the header |
| Messages.Message.BodySize | message.h:31-34 | `body_size()` plus 4 is `size()`, and for a whole frame it is the payload length |
| Messages.Message.Header | message.h:36-40 | `header()` is the 4-byte prefix, and it decodes to `size()` |
| Messages.Message.Body | message.h:42-45 | `body()` has `body_size()` bytes, and for a whole frame the header followed by it is the buffer |
| Messages.Message.Data | message.h:47-50 | `data()` is the prefix of `size()` bytes, the whole buffer for a whole frame |
| Messages.Message.ToString | network.cpp:58-63 | `to_string()` is what follows the header; for a whole frame, the payload whose encoding the buffer is |
| Messages.Message.Resize | message.h:55 | `content.resize(n)` as `Wire.Resize` |
| Messages.Message.Fill | message.h:56-57 | `memcpy` into the buffer replaces exactly the bytes at the offset and keeps the length |
| Messages.Message.Put | message.h:52-58 | `operator<<` leaves exactly the encoding of `s`, whatever the buffer held before |
| Messages.Message.PutNarrow | Network.h:60-66 | the `Network.h` `operator<<` leaves the encoding of `s` when `4 + \|s\| < 65536` |
| Connections.Connection.constructor | connection.h:12-19 | a new connection has read and written nothing |
| Connections.Connection.ReadHeader | connection.h:23-26 | `do_read_header` shrinks the buffer to the 4 header bytes and waits for a header; nothing else changes |
| Connections.Connection.ReadBody | connection.h:37-40 | `do_read_body` grows the buffer to the declared size, keeping the header, and waits for the body; a malformed header ends the read cycle with one disconnect notice |
| Connections.Connection.OnHeaderRead | connection.h:27-30 | the header lands in the buffer and the body is requested: `size() - 4` more bytes |
| Connections.Connection.OnBodyRead | connection.h:41-45 | one payload is handed to `on_read`, exactly the body bytes after the kept header, and the next header is awaited |
| Connections.Connection.OnReadError | connection.h:31-33 | a read error ends the read cycle, notifies `on_disconnect` once in `connection.h` (not at all in the other copies), and delivers nothing |
| Connections.Connection.CloseRead | connection.h:46-48 | the error branch of both read handlers, with the same effect |
| Connections.Connection.Receive | connection.h:23-50 | over a byte stream, the cycle delivers exactly the payloads of the reference reading, in order, and stops at a malformed header exactly when the reading does |
| Connections.Connection.ReceiveFrames | connection.h:23-50 | given the encodings of `p1 … pn`, the cycle delivers `p1 … pn` in order and is still reading |
| Connections.Connection.ReceiveFrame | connection.h:23-50 | one turn consumes 4 header bytes and then exactly `size() - 4` body bytes: it ends at the header's position plus the declared length and delivers the bytes between header and end, or stops where the reference reading stops |
| Connections.Connection.ReceiveHeader | connection.h:25-29 | the header read of one turn: the declared size, and the header kept at the front of the resized buffer |
| Connections.Connection.ReceiveBody | connection.h:40-44 | the body read of one turn consumes exactly the rest of the frame and delivers it |
| Connections.Connection.Write | connection.h:52-58 | `write(m)` makes the queue `old + [m]`, and starts a transmission exactly when the queue was empty before; after a failed transmission the queue is non-empty, so no write starts another |
| Connections.Connection.DoWrite | connection.h:60-62 | `do_write` puts the front frame in flight |
| Connections.Connection.OnWriteDone | connection.h:63-73 | success pops exactly the front, records it as sent and starts the next frame if any; an error pops nothing, starts nothing, and notifies `on_disconnect` in `connection.h` |
| Registry.Without | server.cpp:52 | `std::list::remove` keeps exactly the entries different from `c` |
| Registry.WithoutAppend | server.cpp:52 | removal distributes over concatenation, so the survivors keep their relative order |
| Registry.WithoutAbsent | server.cpp:52 | removing an absent connection changes nothing |
| Registry.WithoutIdempotent | server.cpp:52 | a second `on_disconnect` for the same connection is a no-op |
| Registry.WithoutCounts | server.cpp:52 | every occurrence of `c` is erased and every other entry keeps its count |
| Registry.WithoutLength | server.cpp:52 | the list shrinks by exactly the number of occurrences of `c` |
| Registry.WithoutNoDuplicates | server.cpp:52 | removal keeps the list free of duplicates |
| Registry.SnocNoDuplicates | server.cpp:56 | appending a new connection keeps the list free of duplicates |
| Registry.NoDuplicatesCount | server.cpp:26-28 | in a list without duplicates each member occurs exactly once, so a walk over the list reaches it exactly once |
| Registry.Filter | network.cpp:220-224 | the entries kept by the liveness test form a list no longer than the original |
| Registry.FilterMembers | network.cpp:220-224 | the broadcast reaches exactly the live entries |
| Registry.FilterAppend | network.cpp:220-224 | the filter distributes over concatenation, so live entries are reached in list order |
| Registry.FilterAll | network.cpp:220-224 | when every entry is alive, every entry is reached |
| Dialing.Accepted | network.cpp:163-166 | one accept hands over at most one socket: its own on success, none on error |
| Dialing.Sockets | network.cpp:159-169 | the sockets handed over by a run of accepts are no more than the outcomes |
| Dialing.SocketsAppend | network.cpp:159-169 | the sockets of two runs of accepts are those of the first, then those of the second |
| Dialing.SocketsMembers | network.cpp:163-166 | a socket is handed over exactly when an accept succeeded with it, and none when every accept failed |
| Dialing.FirstSuccess | network.cpp:188-200 | the position of the first successful connect, with every earlier one failed, or no success at all |
| Dialing.Acceptor.constructor | network.cpp:151-157 | a new acceptor has nothing outstanding and has handed nothing over |
| Dialing.Acceptor.AsyncAccept | network.cpp:159-161 | `async_accept` arms one more accept |
| Dialing.Acceptor.OnAccept | network.cpp:162-168 | a completion hands its socket to `on_accept` on success only, and re-arms after every outcome |
| Dialing.Acceptor.Run | network.cpp:159-169 | over a run of outcomes, `on_accept` receives the sockets of the successes in order, and an accept is still outstanding |
| Dialing.Connector.constructor | network.cpp:179-186 | a new connector is not yet dialing |
| Dialing.Connector.AsyncConnect | network.cpp:188-190 | `async_connect` makes one more attempt |
| Dialing.Connector.OnConnect | network.cpp:191-199 | a success hands the socket to `on_connect` and stops; an error makes another attempt |
| Dialing.Connector.Run | network.cpp:188-200 | the connector retries after each error, hands over the socket of the first success, makes no attempt after it, and keeps trying if no outcome succeeds |
| Servers.Server.constructor | server.cpp:15-38 | a new server holds no connections |
| Servers.Server.DoAccept | server.cpp:40-42 | `do_accept` arms one more accept and leaves the list alone |
| Servers.Server.OnAccept | server.cpp:43-59 | a successful accept appends exactly one new connection, already reading its header, at the end; an error leaves the list unchanged; the accept is re-armed either way |
| Servers.Server.Admit | server.cpp:45-56 | the success branch: a fresh connection that reports disconnects, already reading its header and with nothing queued, is appended at the end of the list |
| Servers.Server.OnDisconnect | server.cpp:50-53 | `on_disconnect(c)` leaves `Without(connections, c)`: no occurrence of `c`, the others in order |
| Servers.Server.OnConnectionReadError | connection.h:31-33 | a read error of a connection closes its read cycle and leaves its write side and deliveries alone; it reports once, and the report erases it from the list (a no-op if a write error erased it before) |
| Servers.Server.OnConnectionHeaderRead | connection.h:27-33 | a malformed header closes the connection's read cycle and erases it from the list; an accepted header keeps the list, grows the buffer to the declared size with the header in front, and awaits the body; the write side is untouched either way |
| Servers.Server.OnConnectionWriteDone | connection.h:63-73 | a write error leaves the queue unpopped and stops the write cycle; the connection reports once, and the report erases it from the list; success pops the front, keeps the list and goes on while frames remain; the read side is untouched either way |
| Servers.Server.OnConnectionFails | connection.h:31-33 | when a connection's write and then its read fail, it reports twice; the first report erases it and the second leaves the list as it is |
| Servers.Server.Broadcast | server.cpp:25-30 | `write` queues the encoding of the payload exactly once on each listed connection, in list order, and never on one that has reported a disconnect |
| Servers.Server.WriteAt | server.cpp:27 | one `connection->write`, through a `Message` built from the payload, touching no other connection |
| Networks.EndpointArgument | network.cpp:243-245 | `accept` / `connect` accept exactly one argument of endpoint type, and otherwise fail with "<name>: invalid argument" |
| Networks.MakeEndpoint | network.cpp:265-267 | `endpoint` accepts exactly a string and a number, and otherwise fails with "endpoint: invalid argument" |
| Networks.EndpointAccepted | network.cpp:263-272 | the result of `endpoint` passes the argument check of `accept` and `connect` |
| Networks.SameCheck | network.cpp:254-256 | `accept` and `connect` check their argument in the same way |
| Networks.Network.constructor | network.cpp:211-283 | a new network has no connections, listeners or dialers |
| Networks.Network.OnConnect | network.cpp:228-239 | `on_connect` appends exactly one new connection, already reading its header, at the end of the list |
| Networks.Network.Broadcast | network.cpp:219-226 | `write` queues the encoding of the payload exactly once on each live entry, in list order, starting its transmission when its queue was empty and leaving a failed write cycle stopped; dead entries stay untouched and the list is kept |
| Networks.Network.Visit | network.cpp:221-223 | one turn of the broadcast loop: the entry is written to exactly when its connection is alive, its transmission starting when its queue was empty |
| Networks.Network.WriteAt | Network.h:222 | one `connection->write` through this copy's `Message` string constructor: the frame is queued, its transmission starts when the queue was empty, and no other connection is touched |
| Networks.Network.Accept | network.cpp:241-250 | `accept` fails with the check's message, or starts an armed acceptor on the endpoint |
| Networks.Network.Connect | network.cpp:252-261 | `connect` fails with the check's message, or starts a dialing connector on the endpoint |

## Left out

- The asio machinery is not modelled: sockets, `io_context`, the asynchronous operations and the `shared_from_this` lifetimes. Completions are explicit method calls, and liveness of a `weak_ptr` is a parameter.
- The Scheme evaluator is left out: `scm::eval`, `scm::read`, `scm::print` and the environments. `on_read` / `on_message` only record the payload. `print` and `eval` are not modelled.
- Endpoint construction is left out: `ip::address::from_string` and the port conversion. The model keeps the address text and the number as given. The number type of the evaluator is abstracted as an integer.
- The `main` functions, `Worker.h`, `client.cpp` and `Repl.cpp` are not part of this model (command-line handling, console threads, a thread-safe work queue, and a client that reuses the same classes).
- Thread-safety of the write queue is not modelled: the model is single-threaded.
- The stream output `operator<<` of `Message` and all `std::cout` logging are not modelled.
- Byte order: the header is fixed as little-endian. The code copies the `uint32_t` in host order, so on a big-endian host the bytes differ.
- Connections.Connection.Write requires the frame to declare its own length. Every call in the code passes a `Message` built by the string constructor. The 32-bit constructor builds such a frame when `4 + |s| < 2^32`, and the `Network.h` one when `4 + |s| < 65536`; the broadcasts require exactly those limits (next line).
- Servers.Server.Broadcast requires `4 + |payload| < 2^32`. Networks.Network.Broadcast requires `4 + |payload| < 2^32` for `network.cpp`, and below 65536 for `Network.h`. Longer payloads wrap or overrun (see Findings); the model does not follow them.
- Messages.Message.Size requires at least 4 bytes of content, since below that the code reads past the buffer. Likewise `ToString` and the views require the header to be present.

## Findings

| source | as written | input that shows it | evidently intended | confidence | as-written member | corrected member |
|---|---|---|---|---|---|---|
| Network.h:62 | the total length is cast to `uint16_t` before `content.resize(size)`, and then `4 + \|s\|` bytes are copied into the buffer | a payload of 65532 bytes: the length wraps to 0, the buffer is resized to 0 bytes, and 65536 bytes are copied into it | the length kept as `uint32_t`, as in `message.h:54`, so that the buffer holds the whole frame | not executed | Frames.NarrowLengthOverruns | Frames.DecodeEncode |
| message.h:31-34 | `body_size()` is `size() - header_size()` in `uint32_t`; `connection.h:39-40` resizes the buffer to `size()` and reads `body_size()` bytes after the header | a received header `[0, 0, 0, 0]`: the buffer is resized to 0 bytes and a read of 4294967292 bytes is started 4 bytes into it | a header declaring fewer than 4 bytes rejected as malformed, ending the connection | not executed | Frames.BodySizeUnderflows | Connections.Connection.ReadBody |
