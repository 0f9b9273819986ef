/**
 The code of the socket operations (syscall/syscalls.c:181-192, 430-495; fs/vfs.c:139-154; network/socket.c:8-14,
 50-63; network/tcp.c:94-195; util/list.c:4-10), against the steps of module Sockets.
 */
module Tcp {

  import opened Basics
  import opened Sockets

  /** A SYN that no open socket takes, once a reset has been handled and has left a list. */
  ghost predicate Refused(n: Net, peer: nat, port: nat, f: Flags)
    requires Inv(n)
  {
    RemoveKeeps(n, peer, port);
    var m := if f.rst then Remove(n, peer, port) else n;
    InvOwned(m);
    m.list && f.syn && forall o | o in m.open :: m.socks[o].srcPort != port
  }

  /** Either the head and the members link l, or the head is the address of a list member where that of a
      socket is meant. */
  ghost predicate ListIs(list: bool, head: Pointer, links: map<Ref, Pointer>, l: seq<Ref>) {
    if list then Linked(head, links, l) else head.ToMember?
  }

  lemma ListedBesideNew(list: bool, head: Pointer, links: map<Ref, Pointer>, l: seq<Ref>, s: Ref, member: Pointer)
    requires ListIs(list, head, links, l) && s !in l
    ensures ListIs(list, head, links[s := member], l)
  {
    if list {
      LinkedKept(head, links, l, links[s := member]);
    }
  }

  lemma StillListed(list: bool, head: Pointer, links: map<Ref, Pointer>, l: seq<Ref>, s: Ref)
    requires ListIs(list, head, links, l) && s !in l
    ensures ListIs(list, head, links - {s}, l)
  {
    if list {
      LinkedKept(head, links, l, links - {s});
    }
  }

  /** How socket_free leaves a socket and its list member. */
  ghost predicate Freed(n: Net, links: map<Ref, Pointer>, s: Ref, m: Net, links': map<Ref, Pointer>)
    requires s in n.socks && n.socks[s].refcount > 0
  {
    var k := n.socks[s];
    && m.net == n.net - {s} && m.open == n.open && m.list == n.list && SameShares(n, m)
    && if k.refcount == 1 then
         m.socks == n.socks - {s} && links' == links - {s} && m.freed == n.freed + [s]
       else
         && m.socks == n.socks[s := k.(refcount := k.refcount - 1, buffer := false)]
         && links' == links && m.freed == n.freed
  }

  /** The i-th open socket taken off the list. */
  function TakenOff(n: Net, i: nat): Net
    requires i < |n.open| && n.open[i] in n.socks
  {
    n.(socks := n.socks[n.open[i] := n.socks[n.open[i]].(state := Disconnected)], open := Without(n.open, i),
       list := n.list && Removable(n.open, i))
  }

  lemma FreedIsRelease(n: Net, links: map<Ref, Pointer>, i: nat, m: Net, links': map<Ref, Pointer>)
    requires i < |n.open| && n.open[i] in n.socks && n.socks[n.open[i]].refcount > 0
    requires Freed(TakenOff(n, i), links, n.open[i], m, links')
    ensures m == Release(n, i)
  {
    var s := n.open[i];
    var k := n.socks[s];
    if k.refcount == 1 {
      assert m.socks == n.socks[s := k.(state := Disconnected, refcount := 0, buffer := false)] - {s};
    } else {
      assert m.socks == n.socks[s := k.(state := Disconnected, refcount := k.refcount - 1, buffer := false)];
    }
  }

  lemma FreedLinks(n: Net, head: Pointer, links: map<Ref, Pointer>, i: nat, m: Net, links': map<Ref, Pointer>)
    requires Inv(n) && Linked(head, links, n.open) && links.Keys == n.socks.Keys
    requires i < |n.open| && n.open[i] in n.socks && n.socks[n.open[i]].refcount > 0
    requires Freed(TakenOff(n, i), UnlinkedLinks(links, n.open, i), n.open[i], m, links')
    ensures links'.Keys == m.socks.Keys
    ensures ListIs(Removable(n.open, i), UnlinkedHead(head, links, n.open, i), links', m.open)
  {
    InvOwned(n);
    StillList(n.open, head, links, i, links');
  }

  /** The list without its i-th socket, when the member of that one may be gone. */
  lemma StillList(l: seq<Ref>, head: Pointer, links: map<Ref, Pointer>, i: nat, links': map<Ref, Pointer>)
    requires Distinct(l) && Linked(head, links, l) && i < |l|
    requires links' == UnlinkedLinks(links, l, i) || links' == UnlinkedLinks(links, l, i) - {l[i]}
    ensures ListIs(Removable(l, i), UnlinkedHead(head, links, l, i), links', Without(l, i))
  {
    UnlinkedIff(head, links, l, i);
    if Removable(l, i) {
      WithoutMembers(l, i);
      LinkedKept(UnlinkedHead(head, links, l, i), UnlinkedLinks(links, l, i), Without(l, i), links');
    } else {
      assert links[l[0]] == After(l, 0);
    }
  }

  class Network {
    var socks: map<Ref, Socket>
    var links: map<Ref, Pointer>
    var head: Pointer            // open_sockets
    var next: Ref
    ghost var open: seq<Ref>
    ghost var list: bool
    ghost var user: set<Ref>
    ghost var net: set<Ref>
    ghost var left: set<Ref>
    ghost var freed: seq<Ref>

    ghost function State(): Net
      reads this
    {
      Net(socks, open, list, user, net, left, freed, next)
    }

    ghost predicate Valid()
      reads this
    {
      Inv(State()) && links.Keys == socks.Keys && ListIs(list, head, links, open)
    }

    constructor ()
      ensures Valid() && State() == Start()
    {
      socks, links, head, next := map[], map[], Null, 1;
      open, list, user, net, left, freed := [], true, {}, {}, {}, [];
    }

    /** One step of list_foreach. */
    method Next(s: Ref) returns (p: Pointer)
      requires s in links
      ensures p == if links[s] == Null then Null else ToSocket(links[s].s)
    {
      p := if links[s] == Null then Null else ToSocket(links[s].s);
    }

    method Create(garbage: Socket, member: Pointer) returns (s: Ref)
      requires Valid()
      modifies this
      ensures Valid() && State() == Sockets.Create(old(State()), garbage) && s == old(next)
    {
      ghost var n := State();
      CreateKeeps(n, garbage);
      InvOwned(n);
      ListedBesideNew(list, head, links, open, next, member);
      s := next;
      next := next + 1;
      socks := socks[s := garbage.(refcount := 2, inode := true, buffer := true)];
      links := links[s := member];
      user, net := user + {s}, net + {s};
      assert State() == Sockets.Create(n, garbage);
    }

    /** list_foreach looking for a socket. */
    method FindSocket(peer: Peer, port: nat) returns (p: Pointer, ghost i: nat)
      requires Valid() && list
      ensures Owned(State()) && i == Find(State(), 0, peer, port) <= |open|
      ensures p == if Find(State(), 0, peer, port) == |open| then Null else ToSocket(open[Find(State(), 0, peer, port)])
    {
      ghost var n := State();
      InvOwned(n);
      i := 0;
      p := head;
      while p != Null
        invariant i <= |open| && Find(n, 0, peer, port) == Find(n, i, peer, port)
        invariant p == if i == |open| then Null else ToSocket(open[i])
        decreases |open| - i
      {
        assert links[open[i]] == After(open, i);
        if Matches(socks[p.s], peer, port) {
          return;
        }
        p := Next(p.s);
        i := i + 1;
      }
    }

    /** tcp_remove_connection, whether or not the list survives it. */
    method RemoveConnection(peer: nat, port: nat) returns (p: Pointer, ghost i: nat)
      requires Valid() && list
      modifies this`socks, this`links, this`head
      ensures old(Owned(State())) && i == old(Find(State(), 0, Sockets.Peer.Peer(peer), port)) <= |open|
      ensures i == |open| ==> p == Null && socks == old(socks) && links == old(links) && head == old(head)
      ensures i < |open| ==>
                && p == ToSocket(open[i]) && open[i] in old(socks) && open[i] in old(links)
                && socks == old(socks)[open[i] := old(socks)[open[i]].(state := Disconnected)]
                && links == UnlinkedLinks(old(links), open, i)
                && head == UnlinkedHead(old(head), old(links), open, i)
    {
      p, i := FindSocket(Sockets.Peer.Peer(peer), port);
      if p == Null {
        return;
      }
      assert links[open[i]] == After(open, i);
      if p == head {
        assert i == 0;
        head := links[p.s];
      } else {
        Unlink(p.s, i);
      }
      socks := socks[p.s := socks[p.s].(state := Disconnected)];
    }

    /** The search for the socket before s, which is then linked to the one after it. */
    method Unlink(s: Ref, ghost i: nat)
      requires Valid() && list && 0 < i < |open| && open[i] == s
      modifies this`links
      ensures s in old(links) && links == UnlinkedLinks(old(links), open, i)
    {
      assert links[open[i]] == After(open, i);
      var q := head;
      ghost var k := 0;
      while q != Null
        invariant k < i && q == ToSocket(open[k]) && links == old(links)
        decreases i - k
      {
        assert links[open[k]] == After(open, k);
        if links[q.s] == ToMember(s) {
          assert k + 1 == i;
          links := links[q.s := links[s]];
          return;
        }
        q := Next(q.s);
        k := k + 1;
      }
    }
  
    /** socket_free: the network's share goes. */
    method SocketFree(s: Ref)
      requires s in socks && socks[s].refcount > 0
      modifies this`socks, this`links, this`net, this`freed
      ensures Freed(old(State()), old(links), s, State(), links)
    {
      net := net - {s};
      var k := socks[s];
      socks := socks[s := k.(refcount := k.refcount - 1)];
      socks := socks[s := socks[s].(buffer := false)];
      if socks[s].refcount == 0 {
        Kfree(s);
      }
    }

    method Kfree(s: Ref)
      requires s in socks
      modifies this`socks, this`links, this`freed
      ensures socks == old(socks) - {s} && links == old(links) - {s} && freed == old(freed) + [s]
    {
      socks := socks - {s};
      links := links - {s};
      freed := freed + [s];
    }

    /** socket_free for a socket just taken off the list. */
    method FreeRemoved(s: Ref, ghost i: nat, ghost n: Net, ghost head0: Pointer, ghost links0: map<Ref, Pointer>)
      requires Inv(n) && n.list && Linked(head0, links0, n.open) && links0.Keys == n.socks.Keys
      requires i < |n.open| && n.open[i] == s && s in n.socks && s in links0
      requires State() == TakenOff(n, i)
      requires links == UnlinkedLinks(links0, n.open, i) && head == UnlinkedHead(head0, links0, n.open, i)
      modifies this
      ensures n.socks[s].refcount > 0 && Valid() && State() == Release(n, i)
    {
      ReleaseKeeps(n, i);
      SocketFree(s);
      FreedIsRelease(n, old(links), i, State(), links);
      FreedLinks(n, head0, links0, i, State(), links);
    }

    /** The end of a connection: tcp_remove_connection and socket_free, for any place in the list. */
    method EndConnection(peer: nat, port: nat)
      requires Valid() && Owned(State()) && list
      modifies this
      ensures Valid() && State() == Remove(old(State()), peer, port)
      ensures Linked(head, links, open) <==> Removable(old(open), old(Find(State(), 0, Sockets.Peer.Peer(peer), port)))
    {
      ghost var n, links0, head0 := State(), links, head;
      var p, i := RemoveConnection(peer, port);
      if p != Null {
        list := Removable(open, i);
        open := Without(open, i);
        FreeRemoved(p.s, i, n, head0, links0);
      }
    }

    /** tcp_handle_frame after the handling of a reset. */
    method HandleSegment(peer: nat, port: nat, f: Flags) returns (refused: bool)
      requires Valid() && Owned(State()) && list
      modifies this
      ensures Valid() && State() == Segment(old(State()), peer, port, f)
      ensures refused <==> f.syn && forall o | o in old(open) :: old(socks)[o].srcPort != port
    {
      ghost var n := State();
      var p, i := FindSocket(Any, port);
      FindFirst(n, 0, Any, port);
      if p == Null {
        return f.syn;
      }
      refused := false;
      var s := p.s;
      var st := socks[s].state;
      if f.syn && f.ack {
        st := Connected;
      } else if (f.fin && st == FinWait2) || (f.fin && f.ack && st == FinWait1) || (f.ack && st == LastAck) {
        EndConnection(peer, port);
        return;
      } else if f.ack && st == FinWait1 {
        st := FinWait2;
      } else if f.fin && st == Connected {
        st := LastAck;
      }
      SetState(s, st, i, f);
    }

    method SetState(s: Ref, st: State, ghost i: nat, ghost f: Flags)
      requires Valid() && i < |open| && open[i] == s && s in socks && st == Advance(socks[s].state, f)
      modifies this`socks
      ensures Valid() && State() == old(State()).(socks := old(socks)[s := old(socks)[s].(state := st)])
    {
      AdvanceKeeps(State(), i, f);
      socks := socks[s := socks[s].(state := st)];
      assert State() == old(State()).(socks := old(socks)[s := old(socks)[s].(state := st)]);
    }

    /** tcp_handle_frame, up to a search that would take a list member for a socket. */
    method HandleFrame(peer: nat, port: nat, f: Flags) returns (refused: bool)
      requires Valid() && list
      modifies this
      ensures Valid() && State() == Frame(old(State()), peer, port, f)
      ensures refused <==> Refused(old(State()), peer, port, f)
      ensures !f.rst ==> (refused <==> f.syn && forall o | o in old(open) :: old(socks)[o].srcPort != port)
    {
      RemoveKeeps(State(), peer, port);
      if f.rst {
        EndConnection(peer, port);
        if head.ToMember? {
          return false;
        }
      }
      InvOwned(State());
      refused := HandleSegment(peer, port, f);
    }

    /** The search of _connect for a socket to the same port. */
    method PortInUse(port: nat) returns (used: bool)
      requires Valid() && list
      ensures Owned(State()) && used == PortOpen(State(), port)
    {
      InvOwned(State());
      var p := head;
      ghost var i := 0;
      while p != Null
        invariant i <= |open| && p == if i == |open| then Null else ToSocket(open[i])
        invariant forall k | 0 <= k < i :: socks[open[k]].port != port
        decreases |open| - i
      {
        assert links[open[i]] == After(open, i);
        if socks[p.s].port == port {
          return true;
        }
        p := Next(p.s);
        i := i + 1;
      }
      return false;
    }

    /** _list_add. */
    method ListAdd(first: Ref, s: Ref)
      requires Valid() && list && head == ToSocket(first) && s in links
      modifies this`links
      ensures open != [] && links == old(links)[open[|open| - 1] := ToMember(s)][s := Null]
    {
      var l := first;
      ghost var i := 0;
      assert links[open[i]] == After(open, i);
      while links[l] != Null
        invariant i < |open| && l == open[i] && l in links && links[l] == After(open, i) && links == old(links)
        decreases |open| - i
      {
        l := links[l].s;
        i := i + 1;
        assert links[open[i]] == After(open, i);
      }
      links := links[l := ToMember(s)];
      links := links[s := Null];
    }

    /** The end of _connect, and `s->list.next=NULL` after it. */
    method Enlist(s: Ref)
      requires Valid() && list && s in links
      modifies this`links, this`head
      ensures Linked(head, links, Through(open, s)) && links.Keys == old(links).Keys
    {
      LinkedThrough(head, links, open, s);
      if head != Null {
        assert links[open[|open| - 1]] == After(open, |open| - 1);
        ListAdd(head.s, s);
      } else {
        head := ToSocket(s);
      }
      links := links[s := Null];
    }

    /** _connect up to the wait for the answer, of any socket that the program holds. */
    method Connect(s: Ref, addr: nat, port: nat, srcPort: nat)
      requires Valid() && list && s in user
      modifies this
      ensures old(Owned(State())) && State() == Sockets.Connect(old(State()), s, addr, port, srcPort)
      ensures links.Keys == socks.Keys && Linked(head, links, open)
      ensures Valid() <==> old(PortOpen(State(), port) || socks[s].refcount == 2)
    {
      ConnectKeepsIff(State(), s, addr, port, srcPort);
      var used := PortInUse(port);
      if !used {
        ConnectUnused(s, addr, port, srcPort);
      }
    }

    method ConnectUnused(s: Ref, addr: nat, port: nat, srcPort: nat)
      requires Valid() && list && s in user && Owned(State()) && !PortOpen(State(), port)
      modifies this
      ensures State() == Sockets.Connect(old(State()), s, addr, port, srcPort)
      ensures links.Keys == socks.Keys && Linked(head, links, open)
    {
      Enlist(s);
      socks := socks[s := socks[s].(addr := addr, port := port, srcPort := srcPort, state := Connecting)];
      open := Through(open, s);
    }

    /** vfs_close of a socket, and socket_close. */
    method VfsClose(s: Ref) returns (r: int, halted: bool)
      requires s in socks
      modifies this`socks, this`user
      ensures !old(socks)[s].inode ==> r == -1 && !halted && State() == old(State())
      ensures old(socks)[s].inode ==> (halted <==> old(socks)[s].refcount == 0)
      ensures old(socks)[s].inode && !halted ==> r == 0 && State() == Drop(old(State()), s)
    {
      var k := socks[s];
      if !k.inode {
        return -1, false;
      }
      if k.refcount == 0 {
        return 0, true;
      }
      user := user - {s};
      socks := socks[s := k.(refcount := k.refcount - 1)];
      if k.state == Connected {
        socks := socks[s := socks[s].(state := FinWait1)];
      }
      socks := socks[s := socks[s].(inode := false)];
      return 0, false;
    }

    /** _close of the slot that holds s; the halt on a zero count is never reached. */
    method Close(s: Ref) returns (halted: bool)
      requires Valid() && s in user
      modifies this
      ensures !halted && Valid()
      ensures s in old(socks) && old(socks)[s].refcount > 0 && State() == Sockets.Close(old(State()), s)
    {
      ghost var n := State();
      assert Sound(n, s);
      CloseKeeps(n, s);
      InvOwned(Sockets.Close(n, s));
      var _, h := VfsClose(s);
      halted := h;
      if socks[s].refcount == 0 {
        ghost var links0 := links;
        Kfree(s);
        StillListed(list, head, links0, open, s);
      }
    }

    /** The slot closed by _exit. */
    method Exit(s: Ref) returns (halted: bool)
      requires Valid() && s in user
      modifies this
      ensures !halted && Valid()
      ensures s in old(socks) && old(socks)[s].refcount > 0 && State() == Sockets.Exit(old(State()), s)
    {
      ghost var n := State();
      assert Sound(n, s);
      ExitKeeps(n, s);
      var _, h := VfsClose(s);
      halted := h;
      if socks[s].refcount == 0 {
        left := left + {s};
      }
    }

    /** The code performs every enabled event as the step of the state machine. */
    method Perform(e: Event)
      requires Valid() && Enabled(State(), e)
      modifies this
      ensures Valid() && State() == Step(old(State()), e)
    {
      match e
      case Created(garbage) => var _ := Create(garbage, Null);
      case Connects(s, addr, port, srcPort) =>
        assert Sound(State(), s);
        Connect(s, addr, port, srcPort);
      case Arrives(peer, dst, flags) => var _ := HandleFrame(peer, dst, flags);
      case Closes(s) => var _ := Close(s);
      case Exits(s) => var _ := Exit(s);
    }

    /** And so every run. */
    method PerformAll(es: seq<Event>, ghost n: Net)
      requires Valid() && Run(State(), es, n)
      modifies this
      ensures Valid() && State() == n
      decreases |es|
    {
      if es != [] {
        Perform(es[0]);
        PerformAll(es[1..], n);
      }
    }
  }
}
