/** `missVportConsumer`, as the code runs it when nothing comes between: each call is the
    steps of the protocol that its thread takes. */
module UpcallConsumer {
  import opened Bytes
  import opened UpcallPorts

  /** The kernel's side: SET fails on a vport that does not exist, and announces the vport
      otherwise. */
  class Kernel {
    var vports: map<VportID, bool>
    var subscribed: bool
    var queue: seq<Event>
    ghost var sets: multiset<VportID>

    constructor (vports: map<VportID, bool>, subscribed: bool)
      ensures this.vports == vports && this.subscribed == subscribed && queue == [] && sets == multiset{}
    {
      this.vports, this.subscribed, this.queue, this.sets := vports, subscribed, [], multiset{};
    }

    method SetUpcallPort(v: VportID) returns (ok: bool)
      modifies this
      ensures ok <==> v in old(vports)
      ensures !ok ==> vports == old(vports) && queue == old(queue) && sets == old(sets)
      ensures ok ==> vports == old(vports)[v := true] && sets == old(sets) + multiset{v}
      ensures ok ==> queue == if subscribed then old(queue) + [New(v)] else old(queue)
      ensures subscribed == old(subscribed)
    {
      ok := v in vports;
      if ok {
        vports, sets := vports[v := true], sets + multiset{v};
        if subscribed {
          queue := queue + [New(v)];
        }
      }
    }
  }

  /** All steps of a thread from wanting to process a vport, or its deletion, to resting. */
  function WholeCall(s: State, byEvents: bool): State
    requires Enabled(s, if byEvents then EventAct else EnumAct, false)
  {
    var t := Next(s, if byEvents then EventAct else EnumAct);
    if byEvents && t.eventOp.Unrecorded? then Next(t, EventRecord)
    else if !byEvents && t.enumOp.Unrecorded? then Next(t, EnumRecord)
    else t
  }

  /** What the whole call does to the state that the threads share. */
  lemma {:induction false} WholeSet(s: State, v: VportID, byEvents: bool)
    requires LockFree(s)
    requires if byEvents then s.eventOp == Want(v) else s.phase.Setting? && s.enumOp == Want(v)
    ensures var t := WholeCall(s, byEvents);
      && t.subscribed == s.subscribed && t.dels == s.dels
      && if v !in s.done && v in s.vports then
           t.vports == s.vports[v := true] && t.queue == Emit(s, New(v)) && t.done == s.done + {v}
           && t.sets == s.sets + multiset{v}
         else t.vports == s.vports && t.queue == s.queue && t.done == s.done && t.sets == s.sets
  {
  }

  class MissVportConsumer {
    const kernel: Kernel
    var vportsDone: set<VportID>
    ghost var dels: multiset<VportID>

    constructor (kernel: Kernel)
      ensures this.kernel == kernel && vportsDone == {} && dels == multiset{}
    {
      this.kernel, this.vportsDone, this.dels := kernel, {}, multiset{};
    }

    /** The heap holds the shared part of the protocol state `s`. */
    ghost predicate Represents(s: State)
      reads this, kernel
    {
      && s.vports == kernel.vports && s.subscribed == kernel.subscribed && s.queue == kernel.queue
      && s.sets == kernel.sets && s.done == vportsDone && s.dels == dels
    }

    /** Fails exactly when the vport is not done and does not exist. */
    method SetVportUpcallPortId(v: VportID, ghost s: State, ghost byEvents: bool) returns (ok: bool)
      requires Represents(s) && LockFree(s)
      requires if byEvents then s.eventOp == Want(v) else s.phase.Setting? && s.enumOp == Want(v)
      modifies this, kernel
      ensures ok <==> v in s.done || v in s.vports
      ensures Represents(WholeCall(s, byEvents))
      ensures ok && v !in s.done ==> v in vportsDone && kernel.vports[v]
    {
      hide Next, WholeCall;
      WholeSet(s, v, byEvents);
      if v in vportsDone {
        return true;
      }
      ok := kernel.SetUpcallPort(v);
      if ok {
        vportsDone := vportsDone + {v};
      }
    }

    method VportCreated(v: VportID, ghost s: State) returns (ok: bool)
      requires Represents(s) && LockFree(s) && s.eventOp == Want(v)
      modifies this, kernel
      ensures ok <==> v in s.done || v in s.vports
      ensures Represents(WholeCall(s, true))
    {
      ok := SetVportUpcallPortId(v, s, true);
    }

    method VportDeleted(v: VportID, ghost s: State)
      requires Represents(s) && LockFree(s) && s.eventOp == WantDel(v)
      modifies this
      ensures Represents(WholeCall(s, true))
    {
      vportsDone := vportsDone - {v};
      dels := dels + multiset{v};
    }
  }
}
