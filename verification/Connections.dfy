/**
 What frames do to a connection (network/tcp.c:127-241; syscall/syscalls.c:474-500), state by state, and a whole
 connection from _connect to the last frame.
 */
module Connections {

  import opened Basics
  import opened Sockets

  /** s is the only open socket with this source port. */
  ghost predicate OnlyOne(n: Net, s: Ref, port: nat) {
    Owned(n) && s in n.open && n.socks[s].srcPort == port && forall o | o in n.open && n.socks[o].srcPort == port :: o == s
  }

  /** Nothing but the state of s is different. */
  ghost predicate InState(n: Net, m: Net, s: Ref, st: State) {
    s in n.socks && m == n.(socks := n.socks[s := n.socks[s].(state := st)])
  }

  /** The connection of s has ended: the structure is freed exactly when the user has closed it, and the list
      survives exactly when s was not the first of several. */
  ghost predicate Ended(n: Net, m: Net, s: Ref) {
    && s !in m.open && s !in m.net && m.user == n.user && (s in m.freed <==> s !in n.user)
    && (s in m.socks <==> s in n.user) && (s in m.socks ==> m.socks[s].state == Disconnected)
    && (forall o | o != s :: (o in m.socks <==> o in n.socks) && (o in m.open <==> o in n.open) && (o in m.net <==> o in n.net))
    && (forall o | o != s && o in n.socks :: m.socks[o] == n.socks[o])
    && (m.list <==> !FirstOfSeveral(n, s))
  }

  /** What a frame with SYN and ACK, FIN or ACK makes of a socket, state by state, when it comes from the peer of
      the socket and when it does not. */
  ghost predicate Moved(n: Net, m: Net, s: Ref, known: bool, f: Flags)
    requires s in n.socks
  {
    if f.syn && f.ack then InState(n, m, s, Connected)
    else
      match n.socks[s].state
      case Connected => InState(n, m, s, if f.fin then LastAck else Connected)
      case FinWait1 =>
        if f.ack && f.fin then (if known then Ended(n, m, s) else m == n)
        else InState(n, m, s, if f.ack then FinWait2 else FinWait1)
      case FinWait2 => if f.fin && known then Ended(n, m, s) else m == n
      case LastAck => if f.ack && known then Ended(n, m, s) else m == n
      case _ => m == n
  }

  lemma FindOnly(n: Net, s: Ref, peer: nat, port: nat) returns (k: nat)
    requires OnlyOne(n, s, port)
    ensures k < |n.open| && n.open[k] == s && Find(n, 0, Any, port) == k
    ensures Find(n, 0, Peer.Peer(peer), port) == if n.socks[s].addr == peer then k else |n.open|
  {
    FindFirst(n, 0, Any, port);
    FindFirst(n, 0, Peer.Peer(peer), port);
    k := Find(n, 0, Any, port);
  }

  lemma ReleaseEnds(n: Net, s: Ref, k: nat)
    requires Inv(n) && n.list && k < |n.open| && n.open[k] == s
    ensures n.socks.Keys >= {s} && n.socks[s].refcount > 0 && Ended(n, Release(n, k), s)
  {
    assert Listed(n, s) && Sound(n, s);
    ReleaseKeeps(n, k);
    WithoutMembers(n.open, k);
    assert s < n.next;
    assert n.open[0] == s ==> k == 0;
  }

  /** Every frame without RST, in every state of the socket whose port it is for. */
  lemma FrameMoves(n: Net, s: Ref, peer: nat, port: nat, f: Flags)
    requires Inv(n) && n.list && OnlyOne(n, s, port) && !f.rst
    ensures Moved(n, Frame(n, peer, port, f), s, n.socks[s].addr == peer, f)
  {
    var k := FrameOf(n, s, peer, port, f);
    if !(f.syn && f.ack) && Closing(n.socks[s].state, f) {
      if n.socks[s].addr == peer {
        ReleaseEnds(n, s, k);
      }
    } else {
      assert n.socks[s := n.socks[s].(state := n.socks[s].state)] == n.socks;
    }
  }

  lemma FrameOf(n: Net, s: Ref, peer: nat, port: nat, f: Flags) returns (k: nat)
    requires Inv(n) && n.list && OnlyOne(n, s, port) && !f.rst
    ensures k < |n.open| && n.open[k] == s
    ensures var st, m := n.socks[s].state, Frame(n, peer, port, f);
            if !(f.syn && f.ack) && Closing(st, f) then m == (if n.socks[s].addr == peer then Release(n, k) else n)
            else InState(n, m, s, Advance(st, f))
  {
    k := FindOnly(n, s, peer, port);
  }

  /** A reset from the peer ends the connection; from anyone else it is as if it were none. */
  lemma ResetMoves(n: Net, s: Ref, peer: nat, port: nat, f: Flags)
    requires Inv(n) && n.list && OnlyOne(n, s, port) && f.rst
    ensures n.socks[s].addr == peer ==> Ended(n, Frame(n, peer, port, f), s)
    ensures n.socks[s].addr != peer ==> Frame(n, peer, port, f) == Frame(n, peer, port, f.(rst := false))
  {
    var k := FindOnly(n, s, peer, port);
    if n.socks[s].addr == peer {
      ReleaseEnds(n, s, k);
      ResetReleases(n, s, k, peer, port, f);
    }
  }

  lemma ResetReleases(n: Net, s: Ref, k: nat, peer: nat, port: nat, f: Flags)
    requires Inv(n) && n.list && OnlyOne(n, s, port) && f.rst && Find(n, 0, Peer.Peer(peer), port) == k < |n.open| && n.open[k] == s
    requires n.socks[s].refcount > 0 && Ended(n, Release(n, k), s)
    ensures Frame(n, peer, port, f) == Release(n, k)
  {
    var m := Release(n, k);
    ReleaseKeeps(n, k);
    InvOwned(m);
    FindFirst(m, 0, Any, port);
  }

  /** A frame for a port that no open socket has changes nothing. */
  lemma NoSocketMoves(n: Net, peer: nat, port: nat, f: Flags)
    requires Inv(n) && n.list && Owned(n) && forall o | o in n.open :: n.socks[o].srcPort != port
    ensures Frame(n, peer, port, f) == n
  {
    FindFirst(n, 0, Any, port);
    FindFirst(n, 0, Peer.Peer(peer), port);
  }

  /** A connected socket is in the list with what it was given, and frames from there come to it exactly when no
      other open socket has the same source port. */
  lemma ConnectAddressed(n: Net, s: Ref, addr: nat, port: nat, srcPort: nat)
    requires Inv(n) && s in n.user && s in n.net && s !in n.open && Owned(n) && !PortOpen(n, port)
    ensures var m := Connect(n, s, addr, port, srcPort);
            && m.open == n.open + [s] && m.socks[s].state == Connecting
            && m.socks[s].addr == addr && m.socks[s].port == port && m.socks[s].srcPort == srcPort
            && (Addressed(m, s, addr, srcPort) <==> forall o | o in n.open :: n.socks[o].srcPort != srcPort)
  {
    var i := ThroughIs(n.open, s);
    assert n.open[..i] == n.open;
    assert Sound(n, s);
    var m := Connect(n, s, addr, port, srcPort);
    ConnectKeepsIff(n, s, addr, port, srcPort);
    InvOwned(m);
    assert forall o | o in n.open :: o in m.open && m.socks[o] == n.socks[o];
  }

  const SYNACK := Flags(false, true, true, false)

  /** The three-way handshake: after the answer of the peer the socket is connected. */
  lemma Opens(n: Net, s: Ref, addr: nat, port: nat, srcPort: nat) returns (b: Net)
    requires Inv(n) && n.list && s in n.user && s in n.net && s !in n.open && Owned(n) && !PortOpen(n, port)
    requires forall o | o in n.open :: n.socks[o].srcPort != srcPort
    ensures Run(n, [Connects(s, addr, port, srcPort), Arrives(addr, srcPort, SYNACK)], b)
    ensures Inv(b) && b.list && s in b.user && Addressed(b, s, addr, srcPort) && b.socks[s].state == Connected
    ensures !FirstOfSeveral(b, s)
  {
    ConnectAddressed(n, s, addr, port, srcPort);
    assert Sound(n, s);
    ConnectKeepsIff(n, s, addr, port, srcPort);
    var a := Connect(n, s, addr, port, srcPort);
    FrameMoves(a, s, addr, srcPort, SYNACK);
    b := Frame(a, addr, srcPort, SYNACK);
    FrameKeeps(a, addr, srcPort, SYNACK);
    InvOwned(b);
    TwoSteps(n, Connects(s, addr, port, srcPort), a, Arrives(addr, srcPort, SYNACK), b);
  }

  /** A whole connection, opened and closed by this side: the last of these frames frees the structure, and the
      list survives, the socket being behind those that were open before. */
  lemma WholeConnection(n: Net, s: Ref, addr: nat, port: nat, srcPort: nat) returns (a: Net, b: Net, m: Net)
    requires Inv(n) && n.list && s in n.user && s in n.net && s !in n.open && Owned(n) && !PortOpen(n, port)
    requires forall o | o in n.open :: n.socks[o].srcPort != srcPort
    ensures Run(n, [Connects(s, addr, port, srcPort), Arrives(addr, srcPort, SYNACK)], a) && Inv(a)
    ensures Run(a, [Closes(s), Arrives(addr, srcPort, ACK)], b) && Inv(b) && s !in b.freed
    ensures Run(b, [Arrives(addr, srcPort, FIN)], m) && s in m.freed && m.list
  {
    a := Opens(n, s, addr, port, srcPort);
    b, m := ActiveCloseFrees(a, s, addr, srcPort);
  }
}
