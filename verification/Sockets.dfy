/**
 Lifetime of a TCP socket (syscall/syscalls.c:181-192, 430-500; fs/vfs.c:139-154; network/socket.c:8-14,
 50-63; network/tcp.c:94-195).  A socket has two owners: the program that created it, through a
 descriptor slot, and the network side, which drops its share when the connection ends.

 The socket structures live in a table of records.  The `list` member of each is kept beside the table,
 because it is the address of that member, and not of the structure, that the links of the open list hold.
 */
module Sockets {

  import opened Basics

  /** The values of the state field; a new socket has whatever the allocator left there. */
  datatype State = Connecting | Connected | Disconnecting | Disconnected | FinWait1 | FinWait2 | LastAck | Unset

  datatype Socket = Socket(refcount: nat, inode: bool, state: State, addr: nat, port: nat, srcPort: nat, buffer: bool)

  /** Whom a search for a socket is after. */
  datatype Peer = Any | Peer(addr: nat)

  datatype Flags = Flags(fin: bool, syn: bool, ack: bool, rst: bool)

  /** The sockets, the open sockets in the order of their list, whether `open_sockets` is a list, who still has
      a share in a socket, and the structures freed so far.  `left` are the sockets whose last share an exiting
      process dropped. */
  datatype Net = Net(socks: map<Ref, Socket>, open: seq<Ref>, list: bool, user: set<Ref>, net: set<Ref>, left: set<Ref>,
                     freed: seq<Ref>, next: Ref)

  // ---- the steps ---------------------------------------------------------------------------------

  function Start(): Net {
    Net(map[], [], true, {}, {}, {}, [], 1)
  }

  /** _socket, when there is a network device. */
  function Create(n: Net, garbage: Socket): Net {
    n.(socks := n.socks[n.next := garbage.(refcount := 2, inode := true, buffer := true)],
       user := n.user + {n.next}, net := n.net + {n.next}, next := n.next + 1)
  }

  predicate PortOpen(n: Net, port: nat)
    requires forall s | s in n.open :: s in n.socks
  {
    exists s | s in n.open :: n.socks[s].port == port
  }

  /** What list_add makes of the list l: s goes to the end, and a list that has s already ends with it. */
  function Through(l: seq<Ref>, s: Ref): seq<Ref> {
    if l == [] || l[0] == s then [s] else [l[0]] + Through(l[1..], s)
  }

  /** _connect up to the wait for an answer. */
  function Connect(n: Net, s: Ref, addr: nat, port: nat, srcPort: nat): Net
    requires s in n.socks && forall o | o in n.open :: o in n.socks
  {
    if PortOpen(n, port) then n
    else n.(socks := n.socks[s := n.socks[s].(addr := addr, port := port, srcPort := srcPort, state := Connecting)],
            open := Through(n.open, s))
  }

  function KfreeAtZero(n: Net, s: Ref): Net
    requires s in n.socks
  {
    if n.socks[s].refcount != 0 then n else n.(socks := n.socks - {s}, freed := n.freed + [s])
  }

  /** vfs_close of a socket: the user's share goes, and a connected socket starts to disconnect. */
  function Drop(n: Net, s: Ref): Net
    requires s in n.socks && n.socks[s].refcount > 0
  {
    var k := n.socks[s];
    n.(socks := n.socks[s := k.(refcount := k.refcount - 1, inode := false,
                                state := if k.state == Connected then FinWait1 else k.state)],
       user := n.user - {s})
  }

  function Close(n: Net, s: Ref): Net
    requires s in n.socks && n.socks[s].refcount > 0
  {
    KfreeAtZero(Drop(n, s), s)
  }

  /** _exit closes the slot without freeing the structure. */
  function Exit(n: Net, s: Ref): Net
    requires s in n.socks && n.socks[s].refcount > 0
  {
    var m := Drop(n, s);
    if m.socks[s].refcount == 0 then m.(left := m.left + {s}) else m
  }

  /** The first open socket from place i on with this source port, and with this peer when one is given;
      the length of the list when there is none. */
  function Find(n: Net, i: nat, peer: Peer, port: nat): (k: nat)
    requires i <= |n.open| && forall o | o in n.open :: o in n.socks
    decreases |n.open| - i
  {
    if i == |n.open| || Matches(n.socks[n.open[i]], peer, port) then i else Find(n, i + 1, peer, port)
  }

  predicate Matches(k: Socket, peer: Peer, port: nat) {
    k.srcPort == port && (peer == Any || k.addr == peer.addr)
  }

  function Without(l: seq<Ref>, i: nat): seq<Ref>
    requires i < |l|
  {
    l[..i] + l[i + 1..]
  }

  lemma FindFirst(n: Net, i: nat, peer: Peer, port: nat)
    requires i <= |n.open| && forall o | o in n.open :: o in n.socks
    ensures var k := Find(n, i, peer, port);
            && i <= k <= |n.open|
            && (k < |n.open| ==> Matches(n.socks[n.open[k]], peer, port))
            && (forall j | i <= j < k :: !Matches(n.socks[n.open[j]], peer, port))
    decreases |n.open| - i
  {
  }

  /** Taking out its i-th socket leaves a list: it is not the first of several (network/tcp.c:107-110). */
  predicate Removable(l: seq<Ref>, i: nat) {
    i > 0 || |l| <= 1
  }

  /** tcp_remove_connection on the i-th open socket, then socket_free. */
  function Release(n: Net, i: nat): Net
    requires i < |n.open| && n.open[i] in n.socks && n.socks[n.open[i]].refcount > 0
  {
    var s := n.open[i];
    var k := n.socks[s];
    KfreeAtZero(n.(socks := n.socks[s := k.(state := Disconnected, refcount := k.refcount - 1, buffer := false)],
                   open := Without(n.open, i), list := n.list && Removable(n.open, i), net := n.net - {s}), s)
  }

  ghost predicate Owned(n: Net) {
    forall o | o in n.open :: o in n.socks && n.socks[o].refcount > 0
  }

  function Remove(n: Net, peer: nat, port: nat): Net
    requires Owned(n)
  {
    var i := Find(n, 0, Peer(peer), port);
    FindFirst(n, 0, Peer(peer), port);
    if i == |n.open| then n else Release(n, i)
  }

  predicate Closing(st: State, f: Flags) {
    || (f.fin && st == FinWait2)
    || (f.fin && f.ack && st == FinWait1)
    || (f.ack && st == LastAck)
  }

  /** The new state of a socket that stays open. */
  function Advance(st: State, f: Flags): State {
    if f.syn && f.ack then Connected
    else if f.ack && st == FinWait1 then FinWait2
    else if f.fin && st == Connected then LastAck
    else st
  }

  /** The part of tcp_handle_frame after the handling of RST. */
  function Segment(n: Net, peer: nat, port: nat, f: Flags): Net
    requires Owned(n)
  {
    var i := Find(n, 0, Any, port);
    FindFirst(n, 0, Any, port);
    if i == |n.open| then n
    else
      var s := n.open[i];
      if !(f.syn && f.ack) && Closing(n.socks[s].state, f) then Remove(n, peer, port)
      else n.(socks := n.socks[s := n.socks[s].(state := Advance(n.socks[s].state, f))])
  }

  // ---- the invariant -----------------------------------------------------------------------------

  function Count(b: bool): nat {
    if b then 1 else 0
  }

  /** What holds of one socket structure. */
  ghost predicate Sound(n: Net, s: Ref)
    requires s in n.socks
  {
    var k := n.socks[s];
    && k.refcount == Count(s in n.user) + Count(s in n.net)
    && k.inode == (s in n.user) && k.buffer == (s in n.net)
    && (s !in n.net ==> k.state == Disconnected)
    && (k.refcount == 0 <==> s in n.left)
  }

  /** A socket in the open list has the network's share and one of the states of a connection; it is in
      a state of the closing side only when the user has closed it. */
  ghost predicate Listed(n: Net, s: Ref) {
    && s in n.socks && s in n.net
    && n.socks[s].state in {Connecting, Connected, FinWait1, FinWait2, LastAck}
    && (n.socks[s].state in {FinWait1, FinWait2} ==> s !in n.user)
  }

  ghost predicate Distinct(l: seq<Ref>) {
    forall i, j | 0 <= i < j < |l| :: l[i] != l[j]
  }

  ghost predicate PortsDiffer(n: Net)
    requires forall o | o in n.open :: o in n.socks
  {
    forall a, b | a in n.open && b in n.open && a != b :: n.socks[a].port != n.socks[b].port
  }

  ghost predicate Inv(n: Net) {
    && n.next > 0 && n.user <= n.socks.Keys && n.net <= n.socks.Keys && n.left <= n.socks.Keys
    && (forall s | s in n.socks :: Sound(n, s))
    && (forall s | s in n.open :: Listed(n, s))
    && Distinct(n.open) && PortsDiffer(n)
    && Distinct(n.freed)
    && (forall s :: (s in n.socks || s in n.freed) <==> 0 < s < n.next)
    && (forall s | s in n.freed :: s !in n.socks)
  }

  lemma CreateKeeps(n: Net, garbage: Socket)
    requires Inv(n)
    ensures Inv(Create(n, garbage)) && n.next in Create(n, garbage).user && n.next in Create(n, garbage).net
    ensures Create(n, garbage).socks[n.next].state == garbage.state && Create(n, garbage).open == n.open
  {
    var m := Create(n, garbage);
    forall s | s in m.socks
      ensures Sound(m, s)
    {
      if s != n.next {
        assert Sound(n, s);
      }
    }
    forall s | s in m.open
      ensures Listed(m, s)
    {
      assert Listed(n, s);
    }
  }

  lemma {:induction false} ThroughIs(l: seq<Ref>, s: Ref) returns (i: nat)
    ensures i <= |l| && Through(l, s) == l[..i] + [s] && s !in l[..i]
    ensures i < |l| ==> l[i] == s
    decreases |l|
  {
    if l == [] || l[0] == s {
      i := 0;
    } else {
      var j := ThroughIs(l[1..], s);
      i := j + 1;
      assert l[..i] == [l[0]] + l[1..][..j];
    }
  }

  /** Connecting a socket that the program holds keeps the invariant exactly when the port is in use, so
      that nothing happens, or the network still has its share, so that the count is 2. */
  lemma ConnectKeepsIff(n: Net, s: Ref, addr: nat, port: nat, srcPort: nat)
    requires Inv(n) && s in n.user
    ensures Inv(Connect(n, s, addr, port, srcPort)) <==> PortOpen(n, port) || n.socks[s].refcount == 2
  {
    assert Sound(n, s);
    if !PortOpen(n, port) {
      var m := Connect(n, s, addr, port, srcPort);
      var i := ThroughIs(n.open, s);
      assert m.open[i] == s;
      if n.socks[s].refcount == 2 {
        ConnectKeeps(n, s, addr, port, srcPort);
      } else {
        assert !Listed(m, s);
      }
    }
  }

  /** It leaves every open socket in the list exactly when the port is in use, or the socket was not in
      the list, or was the last one there. */
  lemma ConnectLosesNoneIff(n: Net, s: Ref, addr: nat, port: nat, srcPort: nat)
    requires Inv(n) && s in n.user
    ensures (forall o | o in n.open :: o in Connect(n, s, addr, port, srcPort).open) <==>
            PortOpen(n, port) || s !in n.open || s == n.open[|n.open| - 1]
  {
    var l := n.open;
    var i := ThroughIs(l, s);
    if i < |l| - 1 {
      assert l[|l| - 1] !in Through(l, s);
      assert l[|l| - 1] in l;
    }
    assert l[..|l|] == l;
    assert forall j | 0 <= j < i :: Through(l, s)[j] == l[j];
    if i == |l| - 1 {
      assert Through(l, s) == l;
    }
  }

  lemma ConnectKeeps(n: Net, s: Ref, addr: nat, port: nat, srcPort: nat)
    requires Inv(n) && s in n.user && s in n.net && !PortOpen(n, port)
    ensures Inv(Connect(n, s, addr, port, srcPort))
  {
    var m := Connect(n, s, addr, port, srcPort);
    ThroughMembers(n.open, s);
    forall o | o in m.open
      ensures Listed(m, o)
    {
      assert o != s ==> Listed(n, o);
    }
    forall o | o in m.socks
      ensures Sound(m, o)
    {
      assert Sound(n, o);
    }
  }

  lemma ThroughMembers(l: seq<Ref>, s: Ref)
    requires Distinct(l)
    ensures Distinct(Through(l, s)) && forall o | o in Through(l, s) :: o == s || o in l
  {
    var i := ThroughIs(l, s);
    assert forall o | o in l[..i] :: o in l;
  }

  lemma DropKeeps(n: Net, s: Ref)
    requires Inv(n) && s in n.user
    ensures n.socks[s].refcount > 0
    ensures var m := Drop(n, s);
            && (forall o | o in m.socks && o != s :: Sound(m, o)) && (forall o | o in m.open :: Listed(m, o))
            && m.socks[s].refcount == Count(s in m.net)
            && PortsDiffer(m)
  {
    assert Sound(n, s);
    var m := Drop(n, s);
    forall o | o in m.socks && o != s
      ensures Sound(m, o)
    {
      assert Sound(n, o);
    }
    forall o | o in m.open
      ensures Listed(m, o)
    {
      assert Listed(n, o);
    }
  }

  lemma CloseKeeps(n: Net, s: Ref)
    requires Inv(n) && s in n.user
    ensures n.socks[s].refcount > 0 && Inv(Close(n, s))
    ensures s in Close(n, s).socks <==> s in n.net
  {
    assert Sound(n, s);
    DropKeeps(n, s);
    var m, r := Drop(n, s), Close(n, s);
    forall o | o in r.socks
      ensures Sound(r, o)
    {
      assert o != s ==> Sound(m, o);
    }
    forall o | o in r.open
      ensures Listed(r, o)
    {
      assert Listed(m, o);
    }
  }

  lemma ExitKeeps(n: Net, s: Ref)
    requires Inv(n) && s in n.user
    ensures n.socks[s].refcount > 0 && Inv(Exit(n, s))
    ensures Exit(n, s).freed == n.freed && s in Exit(n, s).socks && (s in Exit(n, s).left <==> s !in n.net)
  {
    assert Sound(n, s);
    DropKeeps(n, s);
    var m, r := Drop(n, s), Exit(n, s);
    forall o | o in r.socks
      ensures Sound(r, o)
    {
      assert o != s ==> Sound(m, o);
    }
    forall o | o in r.open
      ensures Listed(r, o)
    {
      assert Listed(m, o);
    }
  }

  lemma WithoutMembers(l: seq<Ref>, i: nat)
    requires i < |l| && Distinct(l)
    ensures Distinct(Without(l, i)) && forall o :: o in Without(l, i) <==> o in l && o != l[i]
  {
    var r := Without(l, i);
    forall o
      ensures o in r <==> o in l && o != l[i]
    {
      if o in l && o != l[i] {
        var j :| 0 <= j < |l| && l[j] == o;
        assert r[if j < i then j else j - 1] == o;
      }
    }
  }

  /** Releasing an open socket: the structure goes at once when the user has closed it, and stays
      otherwise. */
  lemma ReleaseKeeps(n: Net, i: nat)
    requires Inv(n) && i < |n.open|
    ensures Listed(n, n.open[i]) && n.socks[n.open[i]].refcount > 0
    ensures Inv(Release(n, i)) && (n.open[i] in Release(n, i).socks <==> n.open[i] in n.user)
  {
    var s := n.open[i];
    assert Listed(n, s) && Sound(n, s);
    var r := Release(n, i);
    WithoutMembers(n.open, i);
    forall o | o in r.socks
      ensures Sound(r, o)
    {
      assert Sound(n, o);
    }
    forall o | o in r.open
      ensures Listed(r, o)
    {
      assert Listed(n, o);
    }
  }

  lemma InvOwned(n: Net)
    requires Inv(n)
    ensures Owned(n)
  {
    forall o | o in n.open
      ensures o in n.socks && n.socks[o].refcount > 0
    {
      assert Listed(n, o) && Sound(n, o);
    }
  }

  lemma RemoveKeeps(n: Net, peer: nat, port: nat)
    requires Inv(n)
    ensures Owned(n) && Inv(Remove(n, peer, port))
  {
    InvOwned(n);
    var i := Find(n, 0, Peer(peer), port);
    FindFirst(n, 0, Peer(peer), port);
    if i < |n.open| {
      ReleaseKeeps(n, i);
    }
  }

  lemma AdvanceKeeps(n: Net, i: nat, f: Flags)
    requires Inv(n) && i < |n.open| && n.open[i] in n.socks
    ensures var s := n.open[i];
            Inv(n.(socks := n.socks[s := n.socks[s].(state := Advance(n.socks[s].state, f))]))
  {
    var s := n.open[i];
    var m := n.(socks := n.socks[s := n.socks[s].(state := Advance(n.socks[s].state, f))]);
    forall o | o in m.socks
      ensures Sound(m, o)
    {
      assert Sound(n, o) && Listed(n, s);
    }
    forall o | o in m.open
      ensures Listed(m, o)
    {
      assert Listed(n, o);
    }
  }

  lemma SegmentKeeps(n: Net, peer: nat, port: nat, f: Flags)
    requires Inv(n)
    ensures Owned(n) && Inv(Segment(n, peer, port, f))
  {
    InvOwned(n);
    RemoveKeeps(n, peer, port);
    var i := Find(n, 0, Any, port);
    FindFirst(n, 0, Any, port);
    if i < |n.open| {
      AdvanceKeeps(n, i, f);
    }
  }

  /** tcp_handle_frame: a reset is handled first, and the frame is then looked at again.  When there is no list
      any more after the reset, this is the state before that second look. */
  function Frame(n: Net, peer: nat, port: nat, f: Flags): Net
    requires Inv(n)
  {
    RemoveKeeps(n, peer, port);
    var m := if f.rst then Remove(n, peer, port) else n;
    SegmentKeeps(m, peer, port, f);
    if m.list then Segment(m, peer, port, f) else m
  }

  lemma FrameKeeps(n: Net, peer: nat, port: nat, f: Flags)
    requires Inv(n)
    ensures Inv(Frame(n, peer, port, f))
  {
    RemoveKeeps(n, peer, port);
    SegmentKeeps(if f.rst then Remove(n, peer, port) else n, peer, port, f);
  }

  // ---- runs --------------------------------------------------------------------------------------

  /** The steps of programs and of the network, in any interleaving. */
  datatype Event =
    | Created(garbage: Socket)
    | Connects(s: Ref, addr: nat, port: nat, srcPort: nat)
    | Arrives(peer: nat, dst: nat, flags: Flags)
    | Closes(s: Ref)
    | Exits(s: Ref)

  /** A program names only sockets it has not closed, and connects one of which the network has its share, or
      to a port in use.  Frames and connections need the list; the other calls do not look at it. */
  ghost predicate Enabled(n: Net, e: Event)
    requires Inv(n)
  {
    match e
    case Connects(s, _, port, _) => InvOwned(n); n.list && s in n.user && (s in n.net || PortOpen(n, port))
    case Closes(s) => s in n.user
    case Exits(s) => s in n.user
    case Arrives(_, _, _) => n.list
    case Created(_) => true
  }

  lemma Held(n: Net, s: Ref)
    requires Inv(n) && s in n.user
    ensures s in n.socks && n.socks[s].refcount > 0
  {
    assert Sound(n, s);
  }

  function Step(n: Net, e: Event): Net
    requires Inv(n) && Enabled(n, e)
  {
    match e
    case Created(garbage) => Create(n, garbage)
    case Connects(s, addr, port, srcPort) => InvOwned(n); Connect(n, s, addr, port, srcPort)
    case Arrives(peer, dst, flags) => Frame(n, peer, dst, flags)
    case Closes(s) => Held(n, s); Close(n, s)
    case Exits(s) => Held(n, s); Exit(n, s)
  }

  lemma StepKeeps(n: Net, e: Event)
    requires Inv(n) && Enabled(n, e)
    ensures Inv(Step(n, e))
  {
    match e
    case Created(garbage) => CreateKeeps(n, garbage);
    case Connects(s, addr, port, srcPort) =>
      assert Sound(n, s);
      ConnectKeepsIff(n, s, addr, port, srcPort);
    case Arrives(peer, dst, flags) => FrameKeeps(n, peer, dst, flags);
    case Closes(s) => CloseKeeps(n, s);
    case Exits(s) => ExitKeeps(n, s);
  }

  /** n' is reached from n by the events, each enabled when it happens. */
  ghost predicate Run(n: Net, es: seq<Event>, n': Net)
    requires Inv(n)
    decreases |es|
  {
    if es == [] then n' == n
    else Enabled(n, es[0]) && (StepKeeps(n, es[0]); Run(Step(n, es[0]), es[1..], n'))
  }

  lemma {:induction false} RunKeeps(n: Net, es: seq<Event>, n': Net)
    requires Inv(n) && Run(n, es, n')
    ensures Inv(n')
    decreases |es|
  {
    if es != [] {
      StepKeeps(n, es[0]);
      RunKeeps(Step(n, es[0]), es[1..], n');
    }
  }

  lemma Occurrences(l: seq<Ref>, s: Ref)
    requires Distinct(l)
    ensures multiset(l)[s] == Count(s in l)
  {
    if s in l {
      var i :| 0 <= i < |l| && l[i] == s;
      assert l == l[..i] + [s] + l[i + 1..];
      assert s !in l[..i] && s !in l[i + 1..];
      assert multiset(l[..i])[s] == 0 && multiset(l[i + 1..])[s] == 0;
    } else {
      assert multiset(l)[s] == 0;
    }
  }

  /** After every run, a socket that was ever created has been freed exactly once when both owners have
      dropped their share and the last did not do so by exiting, and not at all otherwise. */
  lemma FreedOnceIff(es: seq<Event>, n: Net, s: Ref)
    requires Run(Start(), es, n) && 0 < s < n.next
    ensures multiset(n.freed)[s] == Count(s !in n.user && s !in n.net && s !in n.left)
  {
    RunKeeps(Start(), es, n);
    Occurrences(n.freed, s);
    if s in n.socks {
      assert Sound(n, s);
    }
  }

  predicate Drops(e: Event, s: Ref) {
    e == Closes(s) || e == Exits(s)
  }

  /** The user's share of a socket lasts from its creation to the first close of it. */
  lemma {:induction false} UserShareIff(n: Net, es: seq<Event>, n': Net, s: Ref)
    requires Inv(n) && Run(n, es, n')
    ensures n.next <= n'.next
    ensures s in n'.user <==> (s in n.user || n.next <= s < n'.next) && forall e | e in es :: !Drops(e, s)
    decreases |es|
  {
    if es != [] {
      var m := FirstStep(n, es, n', s);
      UserShareIff(m, es[1..], n', s);
      assert forall e :: e in es <==> e == es[0] || e in es[1..] by {
        assert es == [es[0]] + es[1..];
      }
    }
  }

  lemma FirstStep(n: Net, es: seq<Event>, n': Net, s: Ref) returns (m: Net)
    requires Inv(n) && es != [] && Run(n, es, n')
    ensures Inv(m) && Run(m, es[1..], n') && n.next <= m.next <= n.next + 1
    ensures s in m.user <==> (s in n.user || n.next <= s < m.next) && !Drops(es[0], s)
    ensures Drops(es[0], s) ==> s < n.next
  {
    StepKeeps(n, es[0]);
    UserStep(n, es[0], s);
    m := Step(n, es[0]);
  }

  predicate SameShares(n: Net, m: Net) {
    m.user == n.user && m.next == n.next && m.left == n.left
  }

  lemma RemoveShares(n: Net, peer: nat, port: nat)
    requires Owned(n)
    ensures SameShares(n, Remove(n, peer, port))
  {
  }

  lemma SegmentShares(n: Net, peer: nat, port: nat, f: Flags)
    requires Owned(n)
    ensures SameShares(n, Segment(n, peer, port, f))
  {
    RemoveShares(n, peer, port);
  }

  lemma FrameShares(n: Net, peer: nat, port: nat, f: Flags)
    requires Inv(n)
    ensures SameShares(n, Frame(n, peer, port, f))
  {
    RemoveKeeps(n, peer, port);
    var m := if f.rst then Remove(n, peer, port) else n;
    InvOwned(m);
    RemoveShares(n, peer, port);
    SegmentShares(m, peer, port, f);
  }

  lemma UserStep(n: Net, e: Event, s: Ref)
    requires Inv(n) && Enabled(n, e)
    ensures n.next <= Step(n, e).next <= n.next + 1
    ensures s in Step(n, e).user <==> (s in n.user || n.next <= s < Step(n, e).next) && !Drops(e, s)
    ensures Drops(e, s) ==> s < n.next
  {
    if s in n.user {
      assert s in n.socks;
    }
    if e.Arrives? {
      FrameShares(n, e.peer, e.dst, e.flags);
    }
  }

  /** A reset and a close of the same socket may come in either order. */
  lemma ResetAndCloseCommute(n: Net, i: nat)
    requires Inv(n) && i < |n.open| && n.open[i] in n.user
    ensures var s := n.open[i];
            && s in n.socks && n.socks[s].refcount == 2 && s !in Release(n, i).open
            && s in Release(n, i).socks && Release(n, i).socks[s].refcount == 1
            && Close(n, s).open == n.open && s in Close(n, s).socks && Close(n, s).socks[s].refcount == 1
            && Close(Release(n, i), s) == Release(Close(n, s), i)
  {
    var s := n.open[i];
    assert Listed(n, s) && Sound(n, s);
    WithoutMembers(n.open, i);
    var a, b := Close(Release(n, i), s), Release(Close(n, s), i);
    assert a.socks == n.socks - {s} && b.socks == n.socks - {s};
  }

  /** s is the socket to which the frames from this peer to this port go. */
  ghost predicate Addressed(n: Net, s: Ref, peer: nat, port: nat) {
    && Owned(n) && s in n.open && n.socks[s].addr == peer && n.socks[s].srcPort == port
    && forall o | o in n.open && n.socks[o].srcPort == port :: o == s
  }

  lemma FindAddressed(n: Net, s: Ref, peer: nat, port: nat)
    requires Addressed(n, s, peer, port)
    ensures var k := Find(n, 0, Any, port);
            k < |n.open| && n.open[k] == s && Find(n, 0, Peer(peer), port) == k
  {
    FindFirst(n, 0, Any, port);
    FindFirst(n, 0, Peer(peer), port);
    var j :| 0 <= j < |n.open| && n.open[j] == s;
  }

  predicate FirstOfSeveral(n: Net, s: Ref) {
    |n.open| > 1 && n.open[0] == s
  }

  const ACK := Flags(false, false, true, false)
  const FIN := Flags(true, false, false, false)

  /** The frame that ends a connection frees the structure exactly when the user has closed it, which
      is so whenever this side closed first; it leaves a list exactly when the socket was not the first of
      several. */
  lemma ConnectionEnds(n: Net, s: Ref, peer: nat, port: nat, f: Flags)
    requires Inv(n) && n.list && Addressed(n, s, peer, port)
    requires !f.rst && !(f.syn && f.ack) && Closing(n.socks[s].state, f)
    ensures var m := Frame(n, peer, port, f);
            && s !in m.open && s !in m.net && m.user == n.user
            && (s in m.freed <==> s !in n.user)
            && (s in m.user ==> s in m.socks && m.socks[s].state == Disconnected && m.socks[s].refcount == 1)
            && (m.list <==> !FirstOfSeveral(n, s))
    ensures n.socks[s].state in {FinWait1, FinWait2} ==> s !in n.user
  {
    FindAddressed(n, s, peer, port);
    var i := Find(n, 0, Any, port);
    assert Listed(n, s) && Sound(n, s);
    ReleaseKeeps(n, i);
    WithoutMembers(n.open, i);
    var m := Frame(n, peer, port, f);
    assert m == Release(n, i);
    assert s < n.next;
    assert n.open[0] == s ==> i == 0;
  }

  /** A frame that does not end the connection only moves its state. */
  lemma ConnectionGoesOn(n: Net, s: Ref, peer: nat, port: nat, f: Flags)
    requires Inv(n) && n.list && Addressed(n, s, peer, port)
    requires !f.rst && ((f.syn && f.ack) || !Closing(n.socks[s].state, f))
    ensures var m := Frame(n, peer, port, f);
            && m == n.(socks := n.socks[s := n.socks[s].(state := Advance(n.socks[s].state, f))])
            && Inv(m) && Addressed(m, s, peer, port)
  {
    FindAddressed(n, s, peer, port);
    AdvanceKeeps(n, Find(n, 0, Any, port), f);
  }

  function Closed(n: Net, s: Ref): (m: Net)
    requires Inv(n) && s in n.user
    ensures Inv(m)
  {
    CloseKeeps(n, s);
    Close(n, s)
  }

  /** This side closes, the peer acknowledges that and then finishes: the structure is freed by the last frame
      and not before, and the list survives exactly when the socket was not the first of several.  The states
      passed are those of the active close in section 3.6 of RFC 9293. */
  lemma ActiveCloseFrees(n: Net, s: Ref, peer: nat, port: nat) returns (b: Net, m: Net)
    requires Inv(n) && n.list && s in n.user && Addressed(n, s, peer, port) && n.socks[s].state == Connected
    ensures Run(n, [Closes(s), Arrives(peer, port, ACK)], b) && s !in b.freed && b.list
    ensures Inv(b) && Run(b, [Arrives(peer, port, FIN)], m) && s in m.freed && (m.list <==> !FirstOfSeveral(n, s))
  {
    assert Listed(n, s) && Sound(n, s);
    var a := Closed(n, s);
    assert a.socks[s].state == FinWait1 && Addressed(a, s, peer, port);
    ConnectionGoesOn(a, s, peer, port, ACK);
    b := Frame(a, peer, port, ACK);
    TwoSteps(n, Closes(s), a, Arrives(peer, port, ACK), b);
    ConnectionEnds(b, s, peer, port, FIN);
    m := Frame(b, peer, port, FIN);
    OneStep(b, Arrives(peer, port, FIN), m);
  }

  /** The peer finishes first: the structure outlives the last acknowledgement until the program closes it, and
      again the list survives exactly when the socket was not the first of several. */
  lemma PassiveCloseFrees(n: Net, s: Ref, peer: nat, port: nat) returns (b: Net, m: Net)
    requires Inv(n) && n.list && s in n.user && Addressed(n, s, peer, port) && n.socks[s].state == Connected
    ensures Run(n, [Arrives(peer, port, FIN), Arrives(peer, port, ACK)], b) && s !in b.freed
    ensures b.list <==> !FirstOfSeveral(n, s)
    ensures Inv(b) && Run(b, [Closes(s)], m) && s in m.freed && m.list == b.list
  {
    ConnectionGoesOn(n, s, peer, port, FIN);
    var a := Frame(n, peer, port, FIN);
    assert a.socks[s].state == LastAck;
    ConnectionEnds(a, s, peer, port, ACK);
    b := Frame(a, peer, port, ACK);
    FrameKeeps(a, peer, port, ACK);
    TwoSteps(n, Arrives(peer, port, FIN), a, Arrives(peer, port, ACK), b);
    CloseKeeps(b, s);
    assert s < b.next;
    m := Close(b, s);
    OneStep(b, Closes(s), m);
  }

  lemma OneStep(n: Net, e: Event, m: Net)
    requires Inv(n) && Enabled(n, e) && m == Step(n, e)
    ensures Run(n, [e], m)
  {
    StepKeeps(n, e);
    assert [e][1..] == [];
    assert Run(m, [], m);
  }

  lemma TwoSteps(n: Net, e: Event, a: Net, f: Event, m: Net)
    requires Inv(n) && Enabled(n, e) && a == Step(n, e) && Inv(a) && Enabled(a, f) && m == Step(a, f)
    ensures Run(n, [e, f], m)
  {
    StepKeeps(n, e);
    OneStep(a, f, m);
    assert [e, f][1..] == [f];
  }

  // ---- the open list as the code keeps it --------------------------------------------------------

  /** A pointer to a socket structure, or to the list member inside one. */
  datatype Pointer = Null | ToSocket(s: Ref) | ToMember(s: Ref)

  function After(l: seq<Ref>, i: nat): Pointer {
    if i + 1 < |l| then ToMember(l[i + 1]) else Null
  }

  /** The head points to the first socket, and each list member to the list member of the next. */
  ghost predicate Linked(head: Pointer, links: map<Ref, Pointer>, l: seq<Ref>) {
    && head == (if l == [] then Null else ToSocket(l[0]))
    && forall i | 0 <= i < |l| :: l[i] in links && links[l[i]] == After(l, i)
  }

  /** What tcp_remove_connection makes of the list when it takes out its i-th socket. */
  function UnlinkedHead(head: Pointer, links: map<Ref, Pointer>, l: seq<Ref>, i: nat): Pointer
    requires i < |l| && l[i] in links
  {
    if i == 0 then links[l[i]] else head
  }

  function UnlinkedLinks(links: map<Ref, Pointer>, l: seq<Ref>, i: nat): map<Ref, Pointer>
    requires i < |l| && l[i] in links
  {
    if i == 0 then links else links[l[i - 1] := links[l[i]]]
  }

  /** The result is a list again exactly when the socket was not the first of several: the new head
      is then the address of a list member where that of a socket is meant. */
  lemma UnlinkedIff(head: Pointer, links: map<Ref, Pointer>, l: seq<Ref>, i: nat)
    requires Distinct(l) && Linked(head, links, l) && i < |l|
    ensures Linked(UnlinkedHead(head, links, l, i), UnlinkedLinks(links, l, i), Without(l, i)) <==>
            Removable(l, i)
  {
    if i > 0 {
      UnlinkedInside(head, links, l, i);
    } else {
      assert links[l[0]] == After(l, 0);
    }
  }

  lemma UnlinkedInside(head: Pointer, links: map<Ref, Pointer>, l: seq<Ref>, i: nat)
    requires Distinct(l) && Linked(head, links, l) && 0 < i < |l|
    ensures Linked(head, UnlinkedLinks(links, l, i), Without(l, i))
  {
    var r, links' := Without(l, i), UnlinkedLinks(links, l, i);
    forall j | 0 <= j < |r|
      ensures r[j] in links' && links'[r[j]] == After(r, j)
    {
      var k := if j < i then j else j + 1;
      assert r[j] == l[k];
      assert links[l[k]] == After(l, k);
    }
  }

  lemma LinkedKept(head: Pointer, links: map<Ref, Pointer>, l: seq<Ref>, links': map<Ref, Pointer>)
    requires Linked(head, links, l) && forall o | o in l :: o in links' && (o in links ==> links'[o] == links[o])
    ensures Linked(head, links', l)
  {
  }

  /** What _list_add does to the links, whether or not s is in the list already. */
  lemma LinkedThrough(head: Pointer, links: map<Ref, Pointer>, l: seq<Ref>, s: Ref)
    requires Distinct(l) && Linked(head, links, l)
    ensures l == [] ==> Linked(ToSocket(s), links[s := Null], [s])
    ensures l != [] ==> Linked(head, links[l[|l| - 1] := ToMember(s)][s := Null], Through(l, s))
  {
    var i := ThroughIs(l, s);
    var l' := l[..i] + [s];
    if l != [] {
      var links' := links[l[|l| - 1] := ToMember(s)][s := Null];
      forall j | 0 <= j < |l'|
        ensures l'[j] in links' && links'[l'[j]] == After(l', j)
      {
        if j < i {
          assert links[l[j]] == After(l, j) && l'[j] == l[j];
          assert l[j] in l[..i];
        }
      }
    }
  }
}
