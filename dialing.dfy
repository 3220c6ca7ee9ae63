/**
 * `Acceptor::async_accept` and `Connector::async_connect` of `network.cpp`
 * and `Network.h`. Each completion of an asynchronous accept or connect is
 * an explicit call with its outcome; a socket is known by an abstract
 * number.
 */
module Dialing {
  import opened Wrappers
  import opened Registry

  type Socket = nat

  /** How one `async_accept` or `async_connect` completed: with a socket, or with an error code. */
  datatype Outcome = Succeeded(socket: Socket) | Failed(code: nat)

  /** The socket one outcome hands over: one on success, none on error. */
  function Accepted(outcome: Outcome): (r: seq<Socket>)
    ensures |r| <= 1 && (r != [] <==> outcome.Succeeded?)
    ensures forall s :: s in r ==> outcome == Succeeded(s)
  {
    if outcome.Succeeded? then [outcome.socket] else []
  }

  /** The sockets of the successful outcomes, in order. */
  function Sockets(outcomes: seq<Outcome>): (r: seq<Socket>)
    ensures |r| <= |outcomes|
  {
    if outcomes == [] then [] else Accepted(outcomes[0]) + Sockets(outcomes[1..])
  }

  /** The successes of two runs of outcomes are those of the first followed by those of the second. */
  lemma {:induction false} SocketsAppend(a: seq<Outcome>, b: seq<Outcome>)
    ensures Sockets(a + b) == Sockets(a) + Sockets(b)
  {
    if a == [] {
      assert a + b == b;
    } else {
      var ab := a + b;
      assert ab[0] == a[0] && ab[1..] == a[1..] + b;
      SocketsAppend(a[1..], b);
      SeqAssoc(Accepted(a[0]), Sockets(a[1..]), Sockets(b));
    }
  }

  /** Exactly the successful outcomes yield sockets: a socket is handed over if and only if some outcome succeeded with it, and none when every outcome failed. */
  lemma {:induction false} SocketsMembers(outcomes: seq<Outcome>)
    ensures forall s :: s in Sockets(outcomes) <==> Succeeded(s) in outcomes
    ensures Sockets(outcomes) == [] <==> forall i :: 0 <= i < |outcomes| ==> outcomes[i].Failed?
  {
    if outcomes != [] {
      SocketsMembers(outcomes[1..]);
      assert outcomes == [outcomes[0]] + outcomes[1..];
    }
  }

  /** The position of the first successful outcome, if any. */
  function FirstSuccess(outcomes: seq<Outcome>): (r: Option<nat>)
    ensures r.Some? ==> && r.value < |outcomes| && outcomes[r.value].Succeeded?
                        && forall k :: 0 <= k < r.value ==> outcomes[k].Failed?
    ensures r.None? ==> forall k :: 0 <= k < |outcomes| ==> outcomes[k].Failed?
  {
    if outcomes == [] then None
    else if outcomes[0].Succeeded? then Some(0)
    else match FirstSuccess(outcomes[1..])
      case None => None
      case Some(k) => Some(k + 1)
  }

  /** `Acceptor`: accepts connections on one endpoint for as long as the program runs. */
  class Acceptor {
    /** An `async_accept` is outstanding. */
    var armed: bool
    /** The number of `async_accept` calls issued. */
    var arms: nat
    /** The sockets handed to `on_accept`, in order. */
    var handed: seq<Socket>

    constructor ()
      ensures !armed && arms == 0 && handed == []
    {
      armed := false;
      arms := 0;
      handed := [];
    }

    /** `async_accept`: wait for the next incoming connection. */
    method AsyncAccept()
      modifies this
      ensures armed && arms == old(arms) + 1 && handed == old(handed)
    {
      armed := true;
      arms := arms + 1;
    }

    /** The outstanding accept completed with `outcome`: hand a socket over on success, and wait again either way. */
    method OnAccept(outcome: Outcome)
      requires armed
      modifies this
      ensures armed && arms == old(arms) + 1
      ensures handed == old(handed) + Accepted(outcome)
    {
      armed := false;
      if outcome.Succeeded? {
        handed := handed + [outcome.socket];
      }
      AsyncAccept();
    }

    /** The accepts complete, one after another, with `outcomes`: every success is handed over, in order, and an accept stays outstanding. */
    method Run(outcomes: seq<Outcome>)
      requires armed
      modifies this
      ensures armed && arms == old(arms) + |outcomes|
      ensures handed == old(handed) + Sockets(outcomes)
    {
      var i := 0;
      while i < |outcomes|
        invariant 0 <= i <= |outcomes|
        invariant armed && arms == old(arms) + i
        invariant handed == old(handed) + Sockets(outcomes[..i])
      {
        SocketsAppend(outcomes[..i], [outcomes[i]]);
        assert outcomes[..i + 1] == outcomes[..i] + [outcomes[i]];
        OnAccept(outcomes[i]);
        i := i + 1;
      }
      assert outcomes[..i] == outcomes;
    }
  }

  /** `Connector`: dials one endpoint until a connection is made. */
  class Connector {
    /** An `async_connect` is outstanding. */
    var connecting: bool
    /** The number of `async_connect` calls issued. */
    var attempts: nat
    /** The socket handed to `on_connect`, once there is one. */
    var connected: Option<Socket>

    ghost predicate Valid()
      reads this
    {
      connected.Some? ==> !connecting
    }

    constructor ()
      ensures Valid() && !connecting && attempts == 0 && connected == None
    {
      connecting := false;
      attempts := 0;
      connected := None;
    }

    /** `async_connect`: try to connect. */
    method AsyncConnect()
      requires Valid() && connected == None
      modifies this
      ensures Valid() && connecting && attempts == old(attempts) + 1 && connected == None
    {
      connecting := true;
      attempts := attempts + 1;
    }

    /** The outstanding connect completed with `outcome`: hand the socket over on success, otherwise try again. */
    method OnConnect(outcome: Outcome)
      requires Valid() && connecting
      modifies this
      ensures Valid()
      ensures outcome.Succeeded? ==> !connecting && connected == Some(outcome.socket) && attempts == old(attempts)
      ensures outcome.Failed? ==> connecting && connected == None && attempts == old(attempts) + 1
    {
      connecting := false;
      if outcome.Succeeded? {
        connected := Some(outcome.socket);
      } else {
        AsyncConnect();
      }
    }

    /**
     * The connects complete, one after another, with `outcomes`, until one
     * succeeds. The first success is handed over and ends the dialing; the
     * outcomes after it are never consumed. `used` counts the outcomes
     * consumed.
     */
    method Run(outcomes: seq<Outcome>) returns (used: nat)
      requires Valid() && connecting
      modifies this
      ensures Valid() && used <= |outcomes|
      ensures FirstSuccess(outcomes).Some? ==>
        && used == FirstSuccess(outcomes).value + 1
        && connected == Some(outcomes[used - 1].socket) && !connecting
        && attempts == old(attempts) + used - 1
      ensures FirstSuccess(outcomes).None? ==>
        used == |outcomes| && connecting && connected == None && attempts == old(attempts) + |outcomes|
    {
      used := 0;
      while used < |outcomes| && connecting
        invariant Valid() && 0 <= used <= |outcomes|
        invariant forall k :: 0 <= k < used - (if connecting then 0 else 1) ==> outcomes[k].Failed?
        invariant connecting ==> connected == None && attempts == old(attempts) + used
        invariant !connecting ==> 0 < used && outcomes[used - 1].Succeeded?
                                  && connected == Some(outcomes[used - 1].socket) && attempts == old(attempts) + used - 1
        decreases |outcomes| - used
      {
        OnConnect(outcomes[used]);
        used := used + 1;
      }
      FirstSuccessAt(outcomes, used, connecting);
    }
  }

  /** How the dialing loop ends, read off `FirstSuccess`. */
  lemma FirstSuccessAt(outcomes: seq<Outcome>, used: nat, connecting: bool)
    requires used <= |outcomes|
    requires forall k :: 0 <= k < used - (if connecting then 0 else 1) ==> outcomes[k].Failed?
    requires !connecting ==> 0 < used && outcomes[used - 1].Succeeded?
    requires connecting ==> used == |outcomes|
    ensures !connecting <==> FirstSuccess(outcomes).Some?
    ensures !connecting ==> FirstSuccess(outcomes).value == used - 1
  {
    var r := FirstSuccess(outcomes);
  }
}
