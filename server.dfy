/**
 * The `Server` of `server.cpp`: it accepts connections, keeps them in a
 * list of connection objects, removes a connection when it reports a
 * disconnect, and writes a frame to every listed connection when the
 * evaluator calls `write`.
 */
module Servers {
  import opened Wire
  import opened Frames
  import opened Messages
  import opened Connections
  import opened Registry

  /**
   * The server's list: distinct, well-formed `connection.h` connections that
   * report disconnects, each with a buffer of its own, none of them erased
   * by `on_disconnect` before.
   */
  ghost predicate Listed(cs: seq<Connection>, gone: set<Connection>)
    reads cs, Buffers(cs)
  {
    && Registered(cs, true)
    && (forall i, j :: 0 <= i < j < |cs| ==> cs[i].message != cs[j].message)
    && (forall i :: 0 <= i < |cs| ==> cs[i] !in gone)
  }

  /** A connection that is new to the list, reports nothing yet and has a buffer of its own may be appended to it. */
  lemma ListedSnoc(cs: seq<Connection>, gone: set<Connection>, c: Connection)
    requires Listed(cs, gone) && forall i :: 0 <= i < |cs| ==> cs[i].disconnects == 0
    requires c.Valid() && c.notifiesDisconnect && c.disconnects == 0 && c !in gone
    requires forall i :: 0 <= i < |cs| ==> cs[i] != c && cs[i].message != c.message
    ensures Listed(cs + [c], gone)
    ensures forall i :: 0 <= i < |cs + [c]| ==> (cs + [c])[i].disconnects == 0
  {
    SnocNoDuplicates(cs, c);
  }

  /** Erasing `c` leaves a list as `Server.Valid` keeps it, with `c` counted as erased, even if `c` has already reported. */
  lemma ListedWithout(cs: seq<Connection>, gone: set<Connection>, c: Connection)
    requires Listed(cs, gone)
    requires forall i :: 0 <= i < |cs| && cs[i] != c ==> cs[i].disconnects == 0
    ensures Listed(Without(cs, c), gone + {c})
    ensures forall i :: 0 <= i < |Without(cs, c)| ==> Without(cs, c)[i].disconnects == 0
  {
    var r := Without(cs, c);
    WithoutNoDuplicates(cs, c);
    forall i, j | 0 <= i < j < |r|
      ensures r[i].message != r[j].message
    {
      var a :| 0 <= a < |cs| && cs[a] == r[i];
      var b :| 0 <= b < |cs| && cs[b] == r[j];
    }
  }

  /** A broadcast over a list as `Server.Valid` keeps it reaches no connection that was erased or has reported a disconnect. */
  lemma ReachedListed(log: seq<Connection>, start: seq<Connection>, cs: seq<Connection>, gone: set<Connection>)
    requires Listed(cs, gone) && forall i :: 0 <= i < |cs| ==> cs[i].disconnects == 0
    requires log == start + cs
    ensures forall k :: |start| <= k < |log| ==> log[k] !in gone && log[k].disconnects == 0
  {
    forall k | |start| <= k < |log|
      ensures log[k] !in gone && log[k].disconnects == 0
    {
      assert log[k] == cs[k - |start|];
    }
  }

  class Server {
    /** `Server::connections`, in list order. */
    var connections: seq<Connection>
    /** An `async_accept` is outstanding. */
    var accepting: bool
    /** The number of `async_accept` calls issued. */
    var arms: nat
    /** The connections `write` was called on by broadcasts, in call order. */
    ghost var reached: seq<Connection>
    /** The connections removed by their `on_disconnect`. */
    ghost var gone: set<Connection>

    /**
     * Every listed connection is a distinct, well-formed `connection.h`
     * connection that reports disconnects, with a buffer of its own, and
     * none of them has reported a disconnect yet: the report removes it
     * (see `OnConnectionReadError` and `OnConnectionWriteDone`).
     */
    ghost predicate Valid()
      reads this, connections, Buffers(connections)
    {
      && Listed(connections, gone)
      && (forall i :: 0 <= i < |connections| ==> connections[i].disconnects == 0)
    }

    constructor ()
      ensures Valid() && connections == [] && !accepting && arms == 0
      ensures reached == [] && gone == {}
    {
      connections := [];
      accepting := false;
      arms := 0;
      reached := [];
      gone := {};
    }

    /** `do_accept`: wait for the next incoming connection. */
    method DoAccept()
      requires Valid()
      modifies this
      ensures Valid() && accepting && arms == old(arms) + 1
      ensures connections == old(connections) && reached == old(reached) && gone == old(gone)
    {
      accepting := true;
      arms := arms + 1;
    }

    /**
     * The outstanding accept completed, successfully when `ok`. On success a
     * new connection is made, its read cycle started, and it is appended to
     * the list; an error leaves the list alone. Either way the server waits
     * for the next connection.
     */
    method OnAccept(ok: bool) returns (c: Connection?)
      requires Valid() && accepting
      modifies this
      ensures Valid() && accepting && arms == old(arms) + 1
      ensures ok ==> && c != null && fresh(c) && fresh(c.message)
                     && connections == old(connections) + [c]
                     && c.notifiesDisconnect && c.phase == AwaitingHeader
                     && c.delivered == [] && c.writeQueue == [] && c.sent == []
      ensures !ok ==> c == null && connections == old(connections)
      ensures reached == old(reached) && gone == old(gone)
    {
      c := null;
      accepting := false;
      if ok {
        c := Admit();
      }
      DoAccept();
    }

    /** The success branch of the accept handler: a connection over the new socket starts its read cycle and is appended to the list. */
    method Admit() returns (c: Connection)
      requires Valid()
      modifies this
      ensures Valid() && fresh(c) && fresh(c.message)
      ensures connections == old(connections) + [c]
      ensures c.notifiesDisconnect && c.phase == AwaitingHeader
      ensures c.delivered == [] && c.writeQueue == [] && c.sent == []
      ensures accepting == old(accepting) && arms == old(arms)
      ensures reached == old(reached) && gone == old(gone)
    {
      c := new Connection(true);
      c.ReadHeader();
      ListedSnoc(connections, gone, c);
      connections := connections + [c];
    }

    /**
     * `on_disconnect`: erase the connection from the list, wherever and
     * however often it occurs. The connection itself may already have
     * recorded the report; every other listed connection is as `Valid`
     * demands.
     */
    method OnDisconnect(c: Connection)
      requires Listed(connections, gone)
      requires forall i :: 0 <= i < |connections| && connections[i] != c ==> connections[i].disconnects == 0
      modifies this
      ensures Valid()
      ensures connections == Without(old(connections), c)
      ensures c !in connections
      ensures gone == old(gone) + {c}
      ensures reached == old(reached) && accepting == old(accepting) && arms == old(arms)
    {
      ListedWithout(connections, gone, c);
      connections := Without(connections, c);
      gone := gone + {c};
    }

    /**
     * A read of connection `c` failed: `c` ends its read cycle and calls
     * `on_disconnect`, which erases it from the list. The completion may
     * arrive after a write error already erased it; the erasure is then a
     * no-op.
     */
    method OnConnectionReadError(c: Connection)
      requires Valid() && c.Valid() && c.notifiesDisconnect && c.phase in {AwaitingHeader, AwaitingBody}
      modifies this, c
      ensures Valid()
      ensures c.Valid() && c.phase == Closed && c.disconnects == old(c.disconnects) + 1
      ensures c.delivered == old(c.delivered) && c.WriteSide() == old(c.WriteSide())
      ensures connections == Without(old(connections), c) && c !in connections
      ensures gone == old(gone) + {c}
      ensures reached == old(reached) && accepting == old(accepting) && arms == old(arms)
    {
      c.OnReadError();
      OnDisconnect(c);
    }

    /**
     * The header read of connection `c` completed with `header`. A malformed
     * header ends the read cycle of `c` like a read error, so `c` is erased
     * from the list; otherwise the body is awaited and the list is kept.
     */
    method OnConnectionHeaderRead(c: Connection, header: Bytes)
      requires Valid() && c.Valid() && c.notifiesDisconnect && c.phase == AwaitingHeader && |header| == HeaderSize
      requires c in connections || c.message !in Buffers(connections)
      modifies this, c, c.message
      ensures Valid() && c.Valid()
      ensures c.delivered == old(c.delivered) && c.WriteSide() == old(c.WriteSide())
      ensures DecodeHeader(header).Failure? ==>
        && c.phase == Closed && c.disconnects == old(c.disconnects) + 1
        && connections == Without(old(connections), c) && gone == old(gone) + {c}
      ensures DecodeHeader(header).Success? ==>
        && c.phase == AwaitingBody && c.disconnects == old(c.disconnects)
        && |c.message.content| == DecodeHeader(header).value && c.message.content[..HeaderSize] == header
        && connections == old(connections) && gone == old(gone)
      ensures reached == old(reached) && accepting == old(accepting) && arms == old(arms)
    {
      ghost var cs := connections;
      c.OnHeaderRead(header);
      forall k | 0 <= k < |cs| && cs[k] != c
        ensures cs[k].Valid() && cs[k].disconnects == 0
      {
        assert cs[k].message != c.message;
      }
      if c.phase == Closed {
        OnDisconnect(c);
      }
    }

    /**
     * The transmission of the front frame of connection `c` completed,
     * successfully when `ok`. An error makes `c` call `on_disconnect`, which
     * erases it from the list; success keeps the list.
     */
    method OnConnectionWriteDone(c: Connection, ok: bool)
      requires Valid() && c.Valid() && c.notifiesDisconnect && c.writing
      modifies this, c
      ensures Valid() && c.Valid()
      ensures c.phase == old(c.phase) && c.delivered == old(c.delivered) && c.written == old(c.written)
      ensures ok ==> && c.disconnects == old(c.disconnects) && connections == old(connections) && gone == old(gone)
                     && c.sent == old(c.sent) + [old(c.writeQueue)[0]] && c.writeQueue == old(c.writeQueue)[1..]
                     && c.writing == (c.writeQueue != [])
      ensures !ok ==> && c.disconnects == old(c.disconnects) + 1 && c.writeQueue == old(c.writeQueue)
                      && !c.writing && c.writeFailed && c.sent == old(c.sent)
                      && connections == Without(old(connections), c) && c !in connections
                      && gone == old(gone) + {c}
      ensures reached == old(reached) && accepting == old(accepting) && arms == old(arms)
    {
      c.OnWriteDone(ok);
      if !ok {
        OnDisconnect(c);
      }
    }

    /**
     * Both cycles of a listed connection fail: first its transmission, then
     * its read. Each calls `on_disconnect`; the first erases it from the
     * list and the second finds nothing left to erase.
     */
    method OnConnectionFails(c: Connection)
      requires Valid() && c in connections && c.writing && c.phase in {AwaitingHeader, AwaitingBody}
      modifies this, c
      ensures Valid() && c.Valid() && c.phase == Closed && c.writeFailed
      ensures c.disconnects == old(c.disconnects) + 2
      ensures connections == Without(old(connections), c) && c !in connections
      ensures c.writeQueue == old(c.writeQueue) && c.delivered == old(c.delivered)
    {
      OnConnectionWriteDone(c, false);
      ghost var afterWrite := connections;
      OnConnectionReadError(c);
      WithoutAbsent(afterWrite, c);
    }

    /**
     * `write`: queue the encoding of `payload` on every listed connection,
     * once each and in list order. No connection that has disconnected is
     * written to.
     */
    method Broadcast(payload: Bytes)
      requires Valid() && Encodable(payload)
      modifies this, connections
      ensures Valid()
      ensures connections == old(connections) && gone == old(gone)
      ensures accepting == old(accepting) && arms == old(arms)
      ensures reached == old(reached) + connections
      ensures forall i :: |old(reached)| <= i < |reached| ==> reached[i] !in gone && reached[i].disconnects == 0
      ensures forall i :: 0 <= i < |connections| ==> Queued(connections[i], Encode(payload))
    {
      var cs, i := connections, 0;
      while i < |cs|
        invariant 0 <= i <= |cs|
        invariant connections == cs && gone == old(gone)
        invariant accepting == old(accepting) && arms == old(arms)
        invariant Valid()
        invariant reached == old(reached) + cs[..i]
        invariant forall k :: 0 <= k < i ==> Queued(cs[k], Encode(payload))
        invariant forall k :: i <= k < |cs| ==> unchanged(cs[k])
      {
        WriteAt(i, payload);
        LogStep(reached, old(reached), cs, i);
        reached := reached + [cs[i]];
        i := i + 1;
      }
      assert cs[..i] == cs;
      ReachedListed(reached, old(reached), cs, gone);
    }

    /** `connection->write(payload)` on the `i`-th listed connection, through a `Message` built from the payload; the other connections are not touched. */
    method WriteAt(i: nat, payload: Bytes)
      requires Valid() && i < |connections| && Encodable(payload)
      modifies connections[i]
      ensures Valid() && Queued(connections[i], Encode(payload))
      ensures forall k :: 0 <= k < |connections| && k != i ==> unchanged(connections[k])
    {
      var m := new Message.FromString(payload);
      EncodeIsFrame(payload);
      var c := connections[i];
      var _ := c.Write(m.content);
      forall k | 0 <= k < |connections| && k != i
        ensures connections[k].Valid()
      {
        assert connections[k] != c;
      }
    }
  }
}
