/**
 What becomes of a socket that its program has closed (network/tcp.c:94-195; syscall/syscalls.c:58-83, 181-192,
 430-500): which ones can still be freed, and what ends each owner's share.
 */
module SocketFate {

  import opened Basics
  import opened Sockets

  // ---- what ends a share -------------------------------------------------------------------------

  /** The network drops its share of a socket only on a frame from the peer of that open socket to its
      port, which is a reset or closes the connection that the port finds. */
  ghost predicate EndsShare(n: Net, e: Event, s: Ref)
    requires Inv(n)
  {
    && e.Arrives? && s in n.open && s in n.socks && n.socks[s].addr == e.peer && n.socks[s].srcPort == e.dst
    && (e.flags.rst ||
        exists o | o in n.open && o in n.socks :: n.socks[o].srcPort == e.dst && Closing(n.socks[o].state, e.flags))
  }

  lemma RemoveEnds(n: Net, peer: nat, port: nat, s: Ref)
    requires Inv(n)
    ensures Owned(n)
    ensures var m := Remove(n, peer, port);
            && m.net <= n.net
            && (s in n.net && s !in m.net ==>
                  s in n.open && s in n.socks && n.socks[s].addr == peer && n.socks[s].srcPort == port)
            && (forall o | o in m.open :: o in n.open && o in m.socks && o in n.socks && m.socks[o] == n.socks[o])
  {
    InvOwned(n);
    RemoveKeeps(n, peer, port);
    FindFirst(n, 0, Peer(peer), port);
    var i := Find(n, 0, Peer(peer), port);
    if i < |n.open| {
      WithoutMembers(n.open, i);
    }
  }

  lemma NetShareEnds(n: Net, e: Event, s: Ref)
    requires Inv(n) && Enabled(n, e) && s in n.net && s !in Step(n, e).net
    ensures EndsShare(n, e, s)
  {
    if e.Arrives? {
      var m := if e.flags.rst then Remove(n, e.peer, e.dst) else n;
      RemoveKeeps(n, e.peer, e.dst);
      RemoveEnds(n, e.peer, e.dst, s);
      InvOwned(n);
      InvOwned(m);
      FindFirst(m, 0, Any, e.dst);
      RemoveEnds(m, e.peer, e.dst, s);
    }
  }

  /** A socket is left behind only by an exit. */
  lemma {:induction false} LeftByExit(n: Net, es: seq<Event>, n': Net, s: Ref)
    requires Inv(n) && Run(n, es, n') && s in n'.left && s !in n.left
    ensures Exits(s) in es
    decreases |es|
  {
    if es != [] {
      StepKeeps(n, es[0]);
      var m := Step(n, es[0]);
      if s in m.left {
        LeftStep(n, es[0], s);
      } else {
        LeftByExit(m, es[1..], n', s);
      }
    }
  }

  lemma LeftStep(n: Net, e: Event, s: Ref)
    requires Inv(n) && Enabled(n, e) && s in Step(n, e).left && s !in n.left
    ensures e == Exits(s)
  {
    if e.Arrives? {
      FrameShares(n, e.peer, e.dst, e.flags);
    }
  }

  // ---- sockets that are never freed --------------------------------------------------------------

  /** What a frame names a socket by: the peer's address and the port at this end. */
  function Key(n: Net, s: Ref): (nat, nat) {
    if s in n.socks then (n.socks[s].addr, n.socks[s].srcPort) else (0, 0)
  }

  /** The frames for s find the first socket of the list instead. */
  ghost predicate Behind(n: Net, s: Ref) {
    n.open != [] && s != n.open[0] && Key(n, s) == Key(n, n.open[0])
  }

  /** Closed by its program, and out of reach of the network. */
  ghost predicate Stuck(n: Net, s: Ref) {
    && s in n.socks && s !in n.user && s in n.net
    && (n.list && s in n.open ==> Behind(n, s))
  }

  /** Among the open sockets s still comes behind the same first one, under the same keys. */
  ghost predicate Continues(n: Net, m: Net, s: Ref) {
    && s in m.socks && s !in m.user && s in m.net
    && (m.list && s in m.open ==>
          && n.list && s in n.open && n.open != [] && m.open != [] && m.open[0] == n.open[0]
          && Key(m, s) == Key(n, s) && Key(m, m.open[0]) == Key(n, n.open[0]))
  }

  lemma StuckContinues(n: Net, m: Net, s: Ref)
    requires Stuck(n, s) && Continues(n, m, s)
    ensures Stuck(m, s)
  {
  }

  lemma ReleaseOthers(n: Net, i: nat, s: Ref)
    requires Inv(n) && i < |n.open| && n.open[i] in n.socks && n.socks[n.open[i]].refcount > 0
    requires s in n.socks && s != n.open[i]
    ensures var m := Release(n, i);
            && s in m.socks && Key(m, s) == Key(n, s) && m.user == n.user
            && (s in m.net <==> s in n.net) && (s in m.open <==> s in n.open)
    ensures i > 0 ==> Release(n, i).open != [] && Release(n, i).open[0] == n.open[0]
  {
    WithoutMembers(n.open, i);
  }

  lemma StuckRelease(n: Net, i: nat, s: Ref, peer: nat, port: nat)
    requires Inv(n) && n.list && Stuck(n, s) && Owned(n) && i == Find(n, 0, Peer(peer), port) < |n.open|
    ensures Stuck(Release(n, i), s)
  {
    FindFirst(n, 0, Peer(peer), port);
    assert n.open[0] in n.open && n.open[i] in n.open;
    ReleaseOthers(n, i, s);
    if i > 0 {
      assert Distinct(n.open);
      ReleaseOthers(n, i, n.open[0]);
    }
    StuckContinues(n, Release(n, i), s);
  }

  lemma StuckRemove(n: Net, peer: nat, port: nat, s: Ref)
    requires Inv(n) && n.list && Stuck(n, s)
    ensures Owned(n) && Stuck(Remove(n, peer, port), s)
  {
    InvOwned(n);
    FindFirst(n, 0, Peer(peer), port);
    var i := Find(n, 0, Peer(peer), port);
    if i < |n.open| {
      StuckRelease(n, i, s, peer, port);
    }
  }

  lemma StuckSegment(n: Net, peer: nat, port: nat, f: Flags, s: Ref)
    requires Inv(n) && n.list && Stuck(n, s) && Owned(n)
    ensures Stuck(Segment(n, peer, port, f), s)
  {
    StuckRemove(n, peer, port, s);
    FindFirst(n, 0, Any, port);
    var i := Find(n, 0, Any, port);
    if i < |n.open| {
      var o := n.open[i];
      StuckContinues(n, n.(socks := n.socks[o := n.socks[o].(state := Advance(n.socks[o].state, f))]), s);
    }
  }

  lemma StuckFrame(n: Net, peer: nat, port: nat, f: Flags, s: Ref)
    requires Inv(n) && n.list && Stuck(n, s)
    ensures Stuck(Frame(n, peer, port, f), s)
  {
    RemoveKeeps(n, peer, port);
    StuckRemove(n, peer, port, s);
    var m := if f.rst then Remove(n, peer, port) else n;
    InvOwned(m);
    if m.list {
      StuckSegment(m, peer, port, f, s);
    }
  }

  lemma StuckConnect(n: Net, t: Ref, addr: nat, port: nat, srcPort: nat, s: Ref)
    requires Inv(n) && Owned(n) && Stuck(n, s) && t in n.user
    ensures Stuck(Connect(n, t, addr, port, srcPort), s)
  {
    var m := Connect(n, t, addr, port, srcPort);
    var i := ThroughIs(n.open, t);
    assert forall o | o in n.open[..i] :: o in n.open;
    StuckContinues(n, m, s);
  }

  lemma StuckStep(n: Net, e: Event, s: Ref)
    requires Inv(n) && Enabled(n, e) && Stuck(n, s)
    ensures Stuck(Step(n, e), s)
  {
    InvOwned(n);
    match e
    case Arrives(peer, dst, flags) => StuckFrame(n, peer, dst, flags, s);
    case Connects(t, addr, port, srcPort) => StuckConnect(n, t, addr, port, srcPort, s);
    case _ => StuckLocal(n, e, s);
  }

  lemma StuckLocal(n: Net, e: Event, s: Ref)
    requires Inv(n) && Owned(n) && Enabled(n, e) && Stuck(n, s) && (e.Created? || e.Closes? || e.Exits?)
    ensures Stuck(Step(n, e), s)
  {
    if !e.Created? {
      assert Sound(n, e.s);
      assert e.s in n.open ==> Listed(n, e.s);
    }
    StuckContinues(n, Step(n, e), s);
  }

  /** A stuck socket stays so in every run: one that was closed before it was ever connected, or after its
      connection found the port in use, or after a later connection cut it off the list, and one that comes
      behind a first socket with its key, are never freed. */
  lemma {:induction false} StuckForever(n: Net, es: seq<Event>, n': Net, s: Ref)
    requires Inv(n) && Run(n, es, n') && Stuck(n, s)
    ensures Stuck(n', s) && s !in n'.freed
    decreases |es|
  {
    if es == [] {
    } else {
      StepKeeps(n, es[0]);
      StuckStep(n, es[0], s);
      StuckForever(Step(n, es[0]), es[1..], n', s);
    }
  }

  // ---- the others can be freed -------------------------------------------------------------------

  const RST := Flags(false, false, false, true)

  /** The reset that the peer of open socket i sends. */
  function ResetOf(n: Net, i: nat): Event
    requires i < |n.open|
  {
    Arrives(Key(n, n.open[i]).0, Key(n, n.open[i]).1, RST)
  }

  /** The first open socket with the key of open socket i is that one. */
  ghost predicate FirstWithKey(n: Net, i: nat) {
    i < |n.open| && forall j | 0 <= j < i :: Key(n, n.open[j]) != Key(n, n.open[i])
  }

  lemma FindKey(n: Net, i: nat)
    requires Owned(n) && FirstWithKey(n, i)
    ensures Find(n, 0, Peer(Key(n, n.open[i]).0), Key(n, n.open[i]).1) == i
  {
    var (peer, port) := Key(n, n.open[i]);
    FindFirst(n, 0, Peer(peer), port);
    assert forall j | 0 <= j <= i :: n.open[j] in n.open;
  }

  /** A reset that has been handled changes nothing else. */
  lemma ResetAgain(n: Net, peer: nat, port: nat)
    requires Inv(n)
    ensures Owned(n) && Segment(n, peer, port, RST) == n
  {
    InvOwned(n);
    FindFirst(n, 0, Any, port);
    var k := Find(n, 0, Any, port);
    if k < |n.open| {
      var o := n.open[k];
      assert n.socks[o := n.socks[o].(state := n.socks[o].state)] == n.socks;
    }
  }

  /** A reset from its peer releases the first open socket with that key, also the first of several. */
  lemma ResetReleases(n: Net, i: nat)
    requires Inv(n) && n.list && FirstWithKey(n, i)
    ensures n.open[i] in n.socks && n.socks[n.open[i]].refcount > 0
    ensures Enabled(n, ResetOf(n, i)) && Step(n, ResetOf(n, i)) == Release(n, i)
  {
    InvOwned(n);
    FindKey(n, i);
    ReleaseKeeps(n, i);
    var (peer, port) := Key(n, n.open[i]);
    assert Remove(n, peer, port) == Release(n, i);
    ResetAgain(Release(n, i), peer, port);
  }

  lemma FirstLike(n: Net, p: nat) returns (i: nat)
    requires p < |n.open|
    ensures i <= p && Key(n, n.open[i]) == Key(n, n.open[p]) && FirstWithKey(n, i)
  {
    i := 0;
    while Key(n, n.open[i]) != Key(n, n.open[p])
      invariant i <= p && forall j | 0 <= j < i :: Key(n, n.open[j]) != Key(n, n.open[p])
      decreases p - i
    {
      i := i + 1;
    }
  }

  /** Resets from its peer, as many as open sockets with its key come before it, free a closed socket. */
  lemma {:induction false} FreeByResets(n: Net, s: Ref) returns (es: seq<Event>, n': Net)
    requires Inv(n) && n.list && s in n.open && s !in n.user && !Behind(n, s)
    ensures Run(n, es, n') && s in n'.freed
    decreases |n.open|
  {
    var p :| 0 <= p < |n.open| && n.open[p] == s;
    var i := FirstLike(n, p);
    ResetReleases(n, i);
    ReleaseKeeps(n, i);
    var m := Release(n, i);
    if n.open[i] == s {
      assert 0 < s < n.next;
      es, n' := [ResetOf(n, i)], m;
      OneStep(n, es[0], m);
    } else {
      NextReset(n, i, s);
      var rest;
      rest, n' := FreeByResets(m, s);
      es := [ResetOf(n, i)] + rest;
      assert es[1..] == rest;
    }
  }

  lemma NextReset(n: Net, i: nat, s: Ref)
    requires Inv(n) && n.list && i < |n.open| && n.open[i] in n.socks && n.socks[n.open[i]].refcount > 0
    requires s in n.open && !Behind(n, s) && s != n.open[i] && Key(n, n.open[i]) == Key(n, s)
    ensures var m := Release(n, i); m.list && s in m.open && m.user == n.user && !Behind(m, s) && |m.open| < |n.open|
  {
    assert Listed(n, s) && Listed(n, n.open[0]);
    assert i > 0;
    assert Distinct(n.open);
    ReleaseOthers(n, i, s);
    ReleaseOthers(n, i, n.open[0]);
  }

  ghost predicate FreedLater(n: Net, s: Ref)
    requires Inv(n)
  {
    exists es, n' :: Run(n, es, n') && s in n'.freed
  }

  lemma NeverFreed(n: Net, s: Ref)
    requires Inv(n) && Stuck(n, s)
    ensures !FreedLater(n, s)
  {
    forall es, n' | Run(n, es, n')
      ensures s !in n'.freed
    {
      StuckForever(n, es, n', s);
    }
  }

  /** Exactly which sockets can still be freed once their program has closed them: those in the open list that
      are the first there or have another key than the first. */
  lemma FreedLaterIff(n: Net, s: Ref)
    requires Inv(n) && n.list && s in n.socks && s !in n.user && s !in n.left
    ensures FreedLater(n, s) <==> s in n.open && (s == n.open[0] || Key(n, s) != Key(n, n.open[0]))
  {
    assert Sound(n, s);
    if s in n.open && !Behind(n, s) {
      var es, n' := FreeByResets(n, s);
    } else {
      NeverFreed(n, s);
    }
  }
}
