/**
 * The `Network` of `network.cpp` and `Network.h`: the functions it binds in
 * the evaluator's environment (`write`, `accept`, `connect`, `endpoint`) and
 * the `on_connect` handler shared by its acceptors and connectors. Its
 * connection list holds `weak_ptr`s: it only ever grows, and a broadcast
 * skips the entries whose connection has already been destroyed.
 */
module Networks {
  import opened Wire
  import opened Wrappers
  import opened Frames
  import opened Messages
  import opened Connections
  import opened Registry
  import opened Dialing

  /** The evaluator values the argument checks look at; everything else is `Other`. */
  datatype Value =
    | Str(text: string)
    | Num(number: int)
    | EndpointValue(address: string, port: int)
    | Other

  /**
   * The check shared by `accept` and `connect`: exactly one argument, and an
   * endpoint. Otherwise `invalid_argument` is thrown with the message
   * "<name>: invalid argument".
   */
  function EndpointArgument(name: string, args: seq<Value>): (r: Result<Value, string>)
    ensures r.Success? <==> |args| == 1 && args[0].EndpointValue?
    ensures r.Success? ==> r.value == args[0]
    ensures r.Failure? ==> r.error == name + ": invalid argument"
  {
    if |args| != 1 || !args[0].EndpointValue? then Failure(name + ": invalid argument")
    else Success(args[0])
  }

  /**
   * `endpoint`: exactly two arguments, a string and a number, which become
   * the endpoint's address and port. Otherwise `invalid_argument` is thrown
   * with the message "endpoint: invalid argument".
   */
  function MakeEndpoint(args: seq<Value>): (r: Result<Value, string>)
    ensures r.Success? <==> |args| == 2 && args[0].Str? && args[1].Num?
    ensures r.Success? ==> r.value == EndpointValue(args[0].text, args[1].number)
    ensures r.Failure? ==> r.error == "endpoint: invalid argument"
  {
    if |args| != 2 || !args[0].Str? || !args[1].Num? then Failure("endpoint: invalid argument")
    else Success(EndpointValue(args[0].text, args[1].number))
  }

  /** What `endpoint` returns is exactly what `accept` and `connect` take: `(accept (endpoint a p))` passes the check, with that endpoint. */
  lemma EndpointAccepted(name: string, args: seq<Value>)
    requires MakeEndpoint(args).Success?
    ensures EndpointArgument(name, [MakeEndpoint(args).value]) == Success(MakeEndpoint(args).value)
  {
  }

  /** A value passes the check of `accept` exactly when it passes that of `connect`; only the message differs. */
  lemma SameCheck(args: seq<Value>)
    ensures EndpointArgument("accept", args).Success? <==> EndpointArgument("connect", args).Success?
    ensures EndpointArgument("accept", args).Success? ==> EndpointArgument("accept", args) == EndpointArgument("connect", args)
  {
  }

  /** A live connection got the frame queued; a dead one was left alone. */
  twostate predicate Reached(c: Connection, frame: Bytes, live: set<Connection>)
    reads c
  {
    if c in live then Queued(c, frame) else unchanged(c)
  }

  class Network {
    /** The `Network.h` variant, whose `Message` narrows the length to 16 bits; `network.cpp` keeps 32. */
    const narrow: bool
    /** `Network::connections`: every connection ever made, in order; entries are never removed. */
    var connections: seq<Connection>
    /** The endpoints an `Acceptor` was started on, in order. */
    var listeners: seq<Value>
    /** The endpoints a `Connector` was started on, in order. */
    var dialers: seq<Value>
    /** The connections `write` was called on by broadcasts, in call order. */
    ghost var reached: seq<Connection>

    /** Every entry is a distinct, well-formed connection of the variant that stops silently on errors, with a buffer of its own. */
    ghost predicate Valid()
      reads this, connections, Buffers(connections)
    {
      && Registered(connections, false)
      && (forall i, j :: 0 <= i < j < |connections| ==> connections[i].message != connections[j].message)
    }

    /** The payloads this variant's `Message` string constructor encodes correctly. */
    predicate Sendable(payload: Bytes) {
      if narrow then HeaderSize + |payload| < Limit16 else Encodable(payload)
    }

    constructor (narrow: bool)
      ensures Valid() && this.narrow == narrow
      ensures connections == [] && listeners == [] && dialers == [] && reached == []
    {
      this.narrow := narrow;
      connections := [];
      listeners := [];
      dialers := [];
      reached := [];
    }

    /** `on_connect`: wrap the socket in a connection, start its read cycle, and append it to the list. */
    method OnConnect() returns (c: Connection)
      requires Valid()
      modifies this
      ensures Valid()
      ensures fresh(c) && fresh(c.message) && connections == old(connections) + [c]
      ensures !c.notifiesDisconnect && c.phase == AwaitingHeader
      ensures c.delivered == [] && c.writeQueue == [] && c.sent == []
      ensures listeners == old(listeners) && dialers == old(dialers) && reached == old(reached)
    {
      c := new Connection(false);
      c.ReadHeader();
      SnocNoDuplicates(connections, c);
      connections := connections + [c];
    }

    /**
     * `write`: queue the encoding of `payload` on every entry whose
     * connection is still alive (`live`), once each and in list order. Dead
     * entries are skipped and stay in the list.
     */
    method Broadcast(payload: Bytes, live: set<Connection>)
      requires Valid() && Sendable(payload)
      modifies this, connections
      ensures Valid()
      ensures connections == old(connections) && listeners == old(listeners) && dialers == old(dialers)
      ensures reached == old(reached) + Filter(connections, live)
      ensures forall i :: 0 <= i < |connections| ==> Reached(connections[i], Encode(payload), live)
    {
      var cs, i := connections, 0;
      while i < |cs|
        invariant 0 <= i <= |cs|
        invariant connections == cs && listeners == old(listeners) && dialers == old(dialers)
        invariant Valid()
        invariant reached == old(reached) + Filter(cs[..i], live)
        invariant forall k :: 0 <= k < i ==> Reached(cs[k], Encode(payload), live)
        invariant forall k :: i <= k < |cs| ==> unchanged(cs[k])
      {
        var c := cs[i];
        FilterAppend(cs[..i], [c], live);
        assert cs[..i + 1] == cs[..i] + [c];
        SeqAssoc(old(reached), Filter(cs[..i], live), Filter([c], live));
        Visit(i, payload, live);
        i := i + 1;
      }
      assert cs[..i] == cs;
    }

    /** One turn of the broadcast loop: lock the `i`-th entry and write to it if its connection is alive. */
    method Visit(i: nat, payload: Bytes, live: set<Connection>)
      requires Valid() && i < |connections| && Sendable(payload)
      modifies this, connections[i]
      ensures connections == old(connections) && listeners == old(listeners) && dialers == old(dialers)
      ensures Valid() && Reached(connections[i], Encode(payload), live)
      ensures reached == old(reached) + Filter([connections[i]], live)
    {
      var c := connections[i];
      assert Filter([c], live) == if c in live then [c] else [];
      if c in live {
        WriteAt(i, payload);
        reached := reached + [c];
      }
    }

    /** `connection->write(payload)` on the `i`-th entry, through this variant's `Message` string constructor; the other connections are not touched. */
    method WriteAt(i: nat, payload: Bytes)
      requires Valid() && i < |connections| && Sendable(payload)
      modifies connections[i]
      ensures Valid() && Queued(connections[i], Encode(payload))
    {
      var m: Message;
      if narrow {
        m := new Message.FromStringNarrow(payload);
      } else {
        m := new Message.FromString(payload);
      }
      EncodeIsFrame(payload);
      var c := connections[i];
      var _ := c.Write(m.content);
      forall k | 0 <= k < |connections| && k != i
        ensures connections[k].Valid()
      {
        assert connections[k] != c;
      }
    }

    /** `accept`: check the argument, then start an acceptor on the endpoint whose connections go to `on_connect`. */
    method Accept(args: seq<Value>) returns (r: Result<bool, string>, acceptor: Acceptor?)
      requires Valid()
      modifies this
      ensures Valid() && connections == old(connections) && dialers == old(dialers) && reached == old(reached)
      ensures EndpointArgument("accept", args).Failure? ==>
        && r == Failure(EndpointArgument("accept", args).error)
        && acceptor == null && listeners == old(listeners)
      ensures EndpointArgument("accept", args).Success? ==>
        && r == Success(true) && listeners == old(listeners) + [args[0]]
        && acceptor != null && fresh(acceptor) && acceptor.armed && acceptor.handed == []
    {
      acceptor := null;
      match EndpointArgument("accept", args)
      case Failure(e) =>
        r := Failure(e);
      case Success(endpoint) =>
        acceptor := new Acceptor();
        acceptor.AsyncAccept();
        listeners := listeners + [endpoint];
        r := Success(true);
    }

    /** `connect`: check the argument, then start a connector on the endpoint whose connection goes to `on_connect`. */
    method Connect(args: seq<Value>) returns (r: Result<bool, string>, connector: Connector?)
      requires Valid()
      modifies this
      ensures Valid() && connections == old(connections) && listeners == old(listeners) && reached == old(reached)
      ensures EndpointArgument("connect", args).Failure? ==>
        && r == Failure(EndpointArgument("connect", args).error)
        && connector == null && dialers == old(dialers)
      ensures EndpointArgument("connect", args).Success? ==>
        && r == Success(true) && dialers == old(dialers) + [args[0]]
        && connector != null && fresh(connector) && connector.Valid()
        && connector.connecting && connector.connected == None
    {
      connector := null;
      match EndpointArgument("connect", args)
      case Failure(e) =>
        r := Failure(e);
      case Success(endpoint) =>
        connector := new Connector();
        connector.AsyncConnect();
        dialers := dialers + [endpoint];
        r := Success(true);
    }
  }
}
