/** The sockets of `ConsumeMisses`: whatever fails, none is left open, and whoever closes what
    when, nobody else's descriptor is closed. */
module MissSockets {
  import opened Bytes
  import opened UpcallPorts
  import opened UpcallConsumer

  /** The file descriptors that the process has open.  The system hands out any number that is
      not in use, so numbers come back; and it closes a number without asking whose it is. */
  class Process {
    var open: set<nat>

    constructor (open: set<nat>)
      ensures this.open == open
    {
      this.open := open;
    }

    method OpenDescriptor(works: bool) returns (fd: Option<nat>)
      modifies this
      ensures fd.Some? <==> works
      ensures fd.None? ==> open == old(open)
      ensures fd.Some? ==> fd.value !in old(open) && open == old(open) + {fd.value}
    {
      if !works {
        return None;
      }
      SomeFree(open);
      var free: nat :| free !in open;
      open := open + {free};
      fd := Some(free);
    }

    method CloseDescriptor(fd: nat)
      modifies this
      ensures open == old(open) - {fd}
    {
      open := open - {fd};
    }
  }

  /** However many descriptors are open, there is another number. */
  lemma {:induction false} SomeFree(open: set<nat>)
    ensures exists n: nat :: n !in open
  {
    var b := Above(open);
    assert b !in open;
  }

  lemma {:induction false} Above(s: set<nat>) returns (b: nat)
    ensures forall n :: n in s ==> n < b
    decreases s
  {
    if s == {} {
      b := 0;
    } else {
      var x :| x in s;
      var c := Above(s - {x});
      b := if c <= x then x + 1 else c;
      forall n | n in s ensures n < b {
        assert n != x ==> n in s - {x};
      }
    }
  }

  /** Which of the system's answers are positive: to opening each of the three sockets, to
      looking up and joining the multicast group, and to enumerating the vports. */
  datatype System = System(opensFirst: bool, opensMiss: bool, knowsGroup: bool, opensEvents: bool, joins: bool,
                           enumerates: bool)

  class Socket {
    // Negative once the socket is closed.
    var fd: int

    constructor (fd: nat)
      ensures this.fd == fd
    {
      this.fd := fd;
    }

    ghost function Descriptors(): set<nat>
      reads this
    {
      if fd < 0 then {} else {fd}
    }

    /** Closes what the socket still has, so that a second call closes nothing. */
    method Close(p: Process)
      modifies this, p
      ensures fd < 0 && p.open == old(p.open) - old(Descriptors())
      ensures old(fd) >= 0 ==> fd == -1
    {
      if fd < 0 {
        return;
      }
      p.CloseDescriptor(fd);
      fd := -1;
    }
  }

  /** `Reopen`. */
  method Reopen(p: Process, works: bool) returns (s: Socket?)
    modifies p
    ensures s != null <==> works
    ensures s == null ==> p.open == old(p.open)
    ensures s != null ==> fresh(s) && s.fd >= 0 && s.fd !in old(p.open) && p.open == old(p.open) + {s.fd as nat}
  {
    var fd := p.OpenDescriptor(works);
    if fd.None? {
      return null;
    }
    s := new Socket(fd.value);
  }

  /** `ConsumeVportEvents`: looks up the multicast group, opens a socket and joins the group. */
  method ConsumeVportEvents(p: Process, kernel: Kernel, sys: System) returns (s: Socket?)
    modifies p, kernel`subscribed
    ensures s != null <==> sys.knowsGroup && sys.opensEvents && sys.joins
    ensures s == null ==> p.open == old(p.open) && kernel.subscribed == old(kernel.subscribed)
    ensures s != null ==> fresh(s) && s.fd >= 0 && s.fd !in old(p.open) && p.open == old(p.open) + {s.fd as nat}
    ensures s != null ==> kernel.subscribed
  {
    if !sys.knowsGroup {
      return null;
    }
    s := Reopen(p, sys.opensEvents);
    if s == null {
      return;
    }
    if !sys.joins {
      s.Close(p);
      return null;
    }
    kernel.subscribed := true;
  }

  // ------------------------------------------------------------------ ConsumeMisses

  ghost function Descriptors(socks: seq<Socket>): set<nat>
    reads set s | s in socks
  {
    if socks == [] then {} else Descriptors(socks[..|socks| - 1]) + socks[|socks| - 1].Descriptors()
  }

  /** Each of the sockets is open, with a descriptor of its own that is not in `others`. */
  ghost predicate Separate(others: set<nat>, socks: seq<Socket>)
    reads set s | s in socks
  {
    if socks == [] then true
    else
      var rest, last := socks[..|socks| - 1], socks[|socks| - 1];
      && Separate(others, rest) && last !in rest
      && last.fd >= 0 && last.fd !in others + Descriptors(rest)
  }

  /** Besides `others`, exactly the sockets in the list have descriptors open. */
  ghost predicate Holds(p: Process, others: set<nat>, socks: seq<Socket>)
    reads p, set s | s in socks
  {
    Separate(others, socks) && p.open == others + Descriptors(socks)
  }

  lemma {:induction false} HoldsNone(p: Process)
    ensures Separate(p.open, []) && Descriptors([]) == {}
  {
  }

  lemma {:induction false} HoldsApart(others: set<nat>, socks: seq<Socket>, s: Socket)
    requires Separate(others, socks + [s])
    ensures Separate(others, socks) && s !in socks && s.fd >= 0 && s.fd !in others + Descriptors(socks)
    ensures Descriptors(socks + [s]) == Descriptors(socks) + s.Descriptors()
  {
    assert (socks + [s])[..|socks|] == socks;
  }

  lemma {:induction false} HoldsOneMore(p: Process, others: set<nat>, socks: seq<Socket>, s: Socket)
    requires Separate(others, socks) && s !in socks && s.fd >= 0 && s.fd !in others + Descriptors(socks)
    requires p.open == others + Descriptors(socks) + {s.fd as nat}
    ensures Holds(p, others, socks + [s])
  {
    assert (socks + [s])[..|socks|] == socks;
  }

  /** The loop over the enumerated vports: the steps that the enumerating thread takes in the
      protocol when nothing comes between.  It stops at the first vport that cannot be set. */
  method SetAll(c: MissVportConsumer, vports: seq<VportID>, ghost s: State) returns (ok: bool, ghost s': State)
    requires c.Represents(s) && LockFree(s) && s.phase == Setting(vports) && s.enumOp == Rest && s.subscribed
    requires forall v :: v in s.done ==> v in s.vports && s.vports[v]
    modifies c, c.kernel
    ensures c.Represents(s') && (Inv(s) ==> Inv(s'))
    ensures ok <==> forall v :: v in vports ==> v in s.vports
    ensures s'.phase == if ok then Setting([]) else Aborted
    ensures c.kernel.vports.Keys == s.vports.Keys
    ensures ok ==> forall v :: v in vports ==> c.kernel.vports[v]
  {
    hide Inv, Next, WholeCall;
    s', ok := s, true;
    var i := 0;
    while i < |vports|
      invariant 0 <= i <= |vports|
      invariant c.Represents(s') && LockFree(s') && s'.phase == Setting(vports[i..]) && s'.enumOp == Rest
      invariant s'.subscribed && (Inv(s) ==> Inv(s'))
      invariant s'.vports.Keys == s.vports.Keys
      invariant forall v :: v in s'.done ==> v in s'.vports && s'.vports[v]
      invariant forall v :: v in vports[..i] ==> v in s'.done
    {
      var v := vports[i];
      ghost var want := Next(s', Pick);
      PickWants(s', vports, i);
      CallKeeps(want, v);
      ok := c.SetVportUpcallPortId(v, want, false);
      WholeSet(want, v, false);
      s' := WholeCall(want, false);
      if !ok {
        return;
      }
      i := i + 1;
      assert vports[..i] == vports[..i - 1] + [v];
    }
    assert vports[..i] == vports;
  }

  lemma {:induction false} PickWants(s: State, vports: seq<VportID>, i: nat)
    requires i < |vports| && s.phase == Setting(vports[i..]) && s.enumOp == Rest && LockFree(s)
    ensures Enabled(s, Pick, true)
    ensures var want := Next(s, Pick);
      && want == s.(phase := Setting(vports[i + 1..]), enumOp := Want(vports[i]))
      && (Inv(s) ==> Inv(want))
  {
    hide Inv;
    assert vports[i..][1..] == vports[i + 1..] && vports[i..][0] == vports[i];
    if Inv(s) {
      StepKeeps(s, Pick);
    }
  }

  lemma {:induction false} CallKeeps(s: State, v: VportID)
    requires s.phase.Setting? && s.enumOp == Want(v) && LockFree(s)
    ensures Inv(s) ==> Inv(WholeCall(s, false))
    ensures var t := WholeCall(s, false);
      && LockFree(t) && t.enumOp == Rest && t.subscribed == s.subscribed
      && t.phase == if v in s.done || v in s.vports then s.phase else Aborted
  {
    hide Inv;
    if Inv(s) {
      StepKeeps(s, EnumAct);
      if Next(s, EnumAct).enumOp.Unrecorded? {
        StepKeeps(Next(s, EnumAct), EnumRecord);
      }
    }
  }

  /** The enumeration, which may fail, and the loop over what it reports. */
  method EnumerateAndSet(c: MissVportConsumer, dump: seq<VportID>, sys: System) returns (ok: bool)
    requires c.vportsDone == {} && c.dels == multiset{}
    requires c.kernel.subscribed && c.kernel.queue == [] && c.kernel.sets == multiset{}
    modifies c, c.kernel
    ensures ok <==> sys.enumerates && forall v :: v in dump ==> v in old(c.kernel.vports)
    ensures ok ==> forall v :: v in dump ==> v in c.kernel.vports && c.kernel.vports[v]
  {
    hide Inv;
    if !sys.enumerates {
      return false;
    }
    ghost var s := State(c.kernel.vports, true, [], {}, Setting(dump), Rest, Rest, multiset{}, multiset{});
    ghost var s';
    ok, s' := SetAll(c, dump, s);
  }

  /** Nothing fails. */
  predicate Succeeds(sys: System, dump: seq<VportID>, vports: map<VportID, bool>) {
    && sys == System(true, true, true, true, true, true)
    && forall v :: v in dump ==> v in vports
  }

  /** The body of `ConsumeMisses`, up to the deferred calls: it returns as soon as something
      fails, with `deferred` holding the sockets whose closing has been deferred by then. */
  method ConsumeMissesBody(p: Process, kernel: Kernel, dump: seq<VportID>, sys: System)
    returns (success: bool, deferred: seq<Socket>)
    requires !kernel.subscribed && kernel.queue == [] && kernel.sets == multiset{}
    modifies p, kernel
    ensures Holds(p, old(p.open), deferred)
    ensures forall i :: 0 <= i < |deferred| ==> fresh(deferred[i])
    ensures success <==> Succeeds(sys, dump, old(kernel.vports))
    ensures success ==> |deferred| == 3
    ensures success ==> forall v :: v in dump ==> v in kernel.vports && kernel.vports[v]
  {
    hide Separate, Descriptors, Inv;
    HoldsNone(p);
    success, deferred := false, [];
    var dp := Reopen(p, sys.opensFirst);
    if dp == null {
      return;
    }
    HoldsOneMore(p, old(p.open), deferred, dp);
    deferred := deferred + [dp];
    var miss := Reopen(p, sys.opensMiss);
    if miss == null {
      return;
    }
    HoldsOneMore(p, old(p.open), deferred, miss);
    deferred := deferred + [miss];
    var consumer := new MissVportConsumer(kernel);
    var events := ConsumeVportEvents(p, kernel, sys);
    if events == null {
      return;
    }
    HoldsOneMore(p, old(p.open), deferred, events);
    deferred := deferred + [events];
    success := EnumerateAndSet(consumer, dump, sys);
  }

  /** Deferred calls run last to first. */
  method RunDeferred(p: Process, deferred: seq<Socket>, ghost others: set<nat>)
    requires Holds(p, others, deferred)
    modifies p, set s | s in deferred
    ensures p.open == others
  {
    var i := |deferred|;
    assert deferred[..i] == deferred;
    while i > 0
      invariant 0 <= i <= |deferred| && Holds(p, others, deferred[..i])
    {
      i := i - 1;
      ghost var rest := deferred[..i];
      assert deferred[..i + 1][..i] == rest;
      deferred[i].Close(p);
    }
  }

  /** For general use, for misses and for vport events. */
  datatype Sockets = Sockets(dp: Socket, miss: Socket, events: Socket)

  function AsList(s: Sockets): seq<Socket> {
    [s.dp, s.miss, s.events]
  }

  /** `dump` is what the enumeration, if it succeeds, reports; some of these vports may be gone
      by the time it is their turn.  The event socket is new, so no event is queued and no vport
      has been set. */
  method ConsumeMisses(p: Process, kernel: Kernel, dump: seq<VportID>, sys: System) returns (r: Option<Sockets>)
    requires !kernel.subscribed && kernel.queue == [] && kernel.sets == multiset{}
    modifies p, kernel
    ensures r.Some? <==> Succeeds(sys, dump, old(kernel.vports))
    ensures r.None? ==> p.open == old(p.open)
    ensures r.Some? ==> Holds(p, old(p.open), AsList(r.value))
    ensures r.Some? ==> fresh(r.value.dp) && fresh(r.value.miss) && fresh(r.value.events)
    ensures r.Some? ==> forall v :: v in dump ==> v in kernel.vports && kernel.vports[v]
  {
    var success, deferred := ConsumeMissesBody(p, kernel, dump, sys);
    if success {
      r := Some(Sockets(deferred[0], deferred[1], deferred[2]));
      assert AsList(r.value) == deferred;
    } else {
      RunDeferred(p, deferred, old(p.open));
      r := None;
    }
  }

  // ------------------------------------------------------------------------ the end

  /** What can happen once misses are consumed, in any order and any number of times: `Cancel`
      is called, the miss loop ends, and the rest of the process opens and closes descriptors
      of its own. */
  datatype Action = Cancel | LoopEnds | TheyOpen(fd: nat) | TheyClose(fd: nat)

  /** Whose descriptors are open: the miss socket's, those of the other two, and the rest of
      the process's. */
  datatype World = World(miss: set<nat>, others: set<nat>, theirs: set<nat>)

  /** Each closes its own. */
  function After(w: World, a: Action): World {
    match a
    case Cancel => w.(miss := {})
    case LoopEnds => w.(others := {})
    case TheyOpen(fd) => if fd in w.miss + w.others + w.theirs then w else w.(theirs := w.theirs + {fd})
    case TheyClose(fd) => w.(theirs := w.theirs - {fd})
  }

  function AfterAll(w: World, schedule: seq<Action>): World {
    if schedule == [] then w
    else After(AfterAll(w, schedule[..|schedule| - 1]), schedule[|schedule| - 1])
  }

  ghost predicate IsWorld(p: Process, s: Sockets, w: World)
    reads p, s.dp, s.miss, s.events
  {
    && w.miss == s.miss.Descriptors() && w.others == s.dp.Descriptors() + s.events.Descriptors()
    && p.open == w.miss + w.others + w.theirs
    && w.miss !! w.others && w.theirs !! w.miss + w.others
    && s.dp.Descriptors() !! s.events.Descriptors()
    && s.dp != s.miss && s.dp != s.events && s.miss != s.events
  }

  /** `Cancel` closes the miss socket; the end of the miss loop, whether that was the reason or
      not, closes the other two.  Descriptors are reused, and yet each closes its own only. */
  method Play(p: Process, s: Sockets, schedule: seq<Action>, theirs: set<nat>, ghost w: World)
    requires IsWorld(p, s, w) && w.theirs == theirs
    modifies p, s.dp, s.miss, s.events
    ensures IsWorld(p, s, AfterAll(w, schedule))
  {
    var now := theirs;
    for i := 0 to |schedule|
      invariant IsWorld(p, s, AfterAll(w, schedule[..i])) && AfterAll(w, schedule[..i]).theirs == now
    {
      assert schedule[..i + 1][..i] == schedule[..i];
      match schedule[i] {
        case Cancel =>
          s.miss.Close(p);
        case LoopEnds =>
          s.events.Close(p);
          s.dp.Close(p);
        case TheyOpen(fd) =>
          if fd !in p.open {
            p.open, now := p.open + {fd}, now + {fd};
          }
        case TheyClose(fd) =>
          if fd in now {
            p.open, now := p.open - {fd}, now - {fd};
          }
      }
    }
    assert schedule[..|schedule|] == schedule;
  }

  /** The miss socket is closed exactly if there was a `Cancel`, the other two exactly if the
      loop ended, and a descriptor of the rest of the process stays open unless they close it. */
  lemma {:induction false} WhatIsClosed(w: World, schedule: seq<Action>)
    ensures var w' := AfterAll(w, schedule);
      && w'.miss == (if Cancel in schedule then {} else w.miss)
      && w'.others == (if LoopEnds in schedule then {} else w.others)
      && (forall fd :: fd in w.theirs && TheyClose(fd) !in schedule ==> fd in w'.theirs)
      && (forall fd :: fd in w'.theirs ==> fd in w.theirs || TheyOpen(fd) in schedule)
    decreases |schedule|
  {
    if schedule != [] {
      var n := |schedule| - 1;
      WhatIsClosed(w, schedule[..n]);
      assert schedule == schedule[..n] + [schedule[n]];
    }
  }

  /** Whose descriptors are open when misses begin to be consumed. */
  ghost function Begin(s: Sockets, theirs: set<nat>): World
    reads s.dp, s.miss, s.events
  {
    World(s.miss.Descriptors(), s.dp.Descriptors() + s.events.Descriptors(), theirs)
  }

  lemma {:induction false} HoldsWorld(p: Process, theirs: set<nat>, s: Sockets)
    requires Holds(p, theirs, AsList(s))
    ensures IsWorld(p, s, Begin(s, theirs))
  {
    hide Separate, Descriptors;
    assert AsList(s) == [s.dp, s.miss] + [s.events] && [s.dp, s.miss] == [s.dp] + [s.miss] && [s.dp] == [] + [s.dp];
    HoldsApart(theirs, [s.dp, s.miss], s.events);
    HoldsApart(theirs, [s.dp], s.miss);
    HoldsApart(theirs, [], s.dp);
    HoldsNone(p);
  }

  /** Consuming misses, with the cancellation and the end of the miss loop in either order and
      possibly repeated, leaves no socket behind and takes nobody else's. */
  method ConsumeAndCancel(p: Process, kernel: Kernel, dump: seq<VportID>, sys: System, schedule: seq<Action>)
    requires !kernel.subscribed && kernel.queue == [] && kernel.sets == multiset{}
    requires Cancel in schedule && LoopEnds in schedule
    modifies p, kernel
    ensures forall fd :: fd in old(p.open) && TheyClose(fd) !in schedule ==> fd in p.open
    ensures forall fd :: fd in p.open ==> fd in old(p.open) || TheyOpen(fd) in schedule
  {
    var theirs := p.open;
    var r := ConsumeMisses(p, kernel, dump, sys);
    if r.Some? {
      var s := r.value;
      HoldsWorld(p, theirs, s);
      ghost var w := Begin(s, theirs);
      Play(p, s, schedule, theirs, w);
      WhatIsClosed(w, schedule);
    }
  }
}
