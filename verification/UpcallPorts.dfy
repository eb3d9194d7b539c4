/** Setting the upcall port of every vport while vports come and go.

    `ConsumeMisses` subscribes to vport events, enumerates the vports that exist, and sets
    the upcall port of each; meanwhile the event thread does the same for every vport it
    hears of.  Both go through `setVportUpcallPortId`, which keeps a set of vports that are
    done, under a lock.  Setting the port makes the kernel announce the vport again.

    The kernel and the two threads take turns in arbitrary order.  Events are neither lost
    nor reordered, nobody else changes upcall ports, and setting the port of an existing
    vport succeeds. */
module UpcallPorts {
  import opened Bytes

  type VportID = uint32

  datatype Event = New(id: VportID) | Del(id: VportID)

  /** Where a thread is.  It wants to process a vport or its deletion, or it has set the
      vport's port in the kernel and still has to record that, holding the lock. */
  datatype Op = Rest | Want(id: VportID) | WantDel(id: VportID) | Unrecorded(id: VportID)

  /** The progress of `ConsumeMisses`.  `must` are the vports that a dump in progress cannot
      leave out: those that have existed since it began. */
  datatype Phase =
    | Initial
    | Dumping(must: set<VportID>, reported: seq<VportID>)
    | Setting(todo: seq<VportID>)
    | Finished
    | Aborted

  /** `vports` says of each existing vport whether its upcall port is ours.  `sets` and `dels`
      count the successful SETs and the processed deletions. */
  datatype State = State(
    vports: map<VportID, bool>,
    subscribed: bool,
    queue: seq<Event>,
    done: set<VportID>,
    phase: Phase,
    enumOp: Op,
    eventOp: Op,
    sets: multiset<VportID>,
    dels: multiset<VportID>)

  datatype Step =
    // the kernel
    | Create(id: VportID)
    | Delete(id: VportID)
    // the enumerating thread
    | Subscribe
    | StartDump
    | Report(id: VportID)
    | EndDump
    | Pick
    | EnumAct
    | EnumRecord
    | Finish
    // the event thread
    | Dequeue
    | EventAct
    | EventRecord

  predicate KernelStep(step: Step) {
    step.Create? || step.Delete?
  }

  /** A state in which `ConsumeMisses` starts.  Nothing is said about the ports that vports have. */
  predicate Start(s: State) {
    && !s.subscribed && s.queue == [] && s.done == {} && s.phase == Initial
    && s.enumOp == Rest && s.eventOp == Rest && s.sets == multiset{} && s.dels == multiset{}
  }

  predicate LockFree(s: State) {
    !s.enumOp.Unrecorded? && !s.eventOp.Unrecorded?
  }

  // ---------------------------------------------------------------- transitions

  /** `inOrder` is whether the subscription comes before the enumeration, as it does. */
  predicate Enabled(s: State, step: Step, inOrder: bool) {
    match step
    case Create(v) => v !in s.vports
    case Delete(v) => v in s.vports
    case Subscribe => !s.subscribed && (inOrder ==> s.phase == Initial)
    case StartDump => s.phase == Initial && (inOrder ==> s.subscribed)
    case Report(v) => s.phase.Dumping? && v in s.vports && v !in s.phase.reported
    case EndDump => s.phase.Dumping? && forall v :: v in s.phase.must ==> v in s.phase.reported
    case Pick => s.phase.Setting? && s.phase.todo != [] && s.enumOp == Rest
    case EnumAct => s.phase.Setting? && s.enumOp.Want? && LockFree(s)
    case EnumRecord => s.phase.Setting? && s.enumOp.Unrecorded?
    case Finish => s.phase.Setting? && s.phase.todo == [] && s.enumOp == Rest
    case Dequeue => s.eventOp == Rest && s.queue != []
    case EventAct => (s.eventOp.Want? || s.eventOp.WantDel?) && LockFree(s)
    case EventRecord => s.eventOp.Unrecorded?
  }

  function Emit(s: State, e: Event): seq<Event> {
    if s.subscribed then s.queue + [e] else s.queue
  }

  /** The kernel's part of a successful SET. */
  function SetPort(s: State, v: VportID): State {
    s.(vports := s.vports[v := true], queue := Emit(s, New(v)), sets := s.sets + multiset{v})
  }

  function Next(s: State, step: Step): State
    requires Enabled(s, step, false)
  {
    match step
    case Create(v) => s.(vports := s.vports[v := false], queue := Emit(s, New(v)))
    case Delete(v) =>
      var phase := if s.phase.Dumping? then s.phase.(must := s.phase.must - {v}) else s.phase;
      s.(vports := s.vports - {v}, queue := Emit(s, Del(v)), phase := phase)
    case Subscribe => s.(subscribed := true)
    case StartDump => s.(phase := Dumping(s.vports.Keys, []))
    case Report(v) => s.(phase := s.phase.(reported := s.phase.reported + [v]))
    case EndDump => s.(phase := Setting(s.phase.reported))
    case Pick => s.(phase := Setting(s.phase.todo[1..]), enumOp := Want(s.phase.todo[0]))
    case EnumAct =>
      var v := s.enumOp.id;
      if v in s.done then s.(enumOp := Rest)
      else if v in s.vports then SetPort(s, v).(enumOp := Unrecorded(v))
      else s.(enumOp := Rest, phase := Aborted)
    case EnumRecord => s.(enumOp := Rest, done := s.done + {s.enumOp.id})
    case Finish => s.(phase := Finished)
    case Dequeue =>
      var e := s.queue[0];
      s.(queue := s.queue[1..], eventOp := if e.New? then Want(e.id) else WantDel(e.id))
    case EventAct =>
      var v := s.eventOp.id;
      if s.eventOp.WantDel? then s.(eventOp := Rest, done := s.done - {v}, dels := s.dels + multiset{v})
      else if v in s.done then s.(eventOp := Rest)
      else if v in s.vports then SetPort(s, v).(eventOp := Unrecorded(v))
      else s.(eventOp := Rest)
    case EventRecord => s.(eventOp := Rest, done := s.done + {s.eventOp.id})
  }

  // ------------------------------------------------------------------- invariant

  /** The events that have not been acted upon: the one in the event thread's hands first. */
  function Pending(s: State): seq<Event> {
    match s.eventOp
    case Want(v) => [New(v)] + s.queue
    case WantDel(v) => [Del(v)] + s.queue
    case _ => s.queue
  }

  /** An announcement of `v` is pending, and no deletion of it behind that. */
  predicate Announced(p: seq<Event>, v: VportID) {
    exists i :: 0 <= i < |p| && p[i] == New(v) && Del(v) !in p[i..]
  }

  predicate InHand(s: State, v: VportID) {
    s.enumOp == Unrecorded(v) || s.eventOp == Unrecorded(v)
  }

  /** The enumeration will still come to `v`.  One that was aborted promises nothing. */
  predicate EnumPending(s: State, v: VportID) {
    match s.phase
    case Initial => true
    case Dumping(must, reported) => v in must || v in reported
    case Setting(todo) => v in todo || s.enumOp == Want(v)
    case Finished => false
    case Aborted => true
  }

  /** What holds of each vport number in every reachable state. */
  predicate InvAt(s: State, v: VportID) {
    // A vport counts as done only while its port is ours, unless news of its deletion is
    // under way.
    && ((v in s.done || InHand(s, v)) && Del(v) !in Pending(s) ==> v in s.vports && s.vports[v])
    // A vport that exists again after a deletion that is under way is announced after it.
    && (v in s.vports && Del(v) in Pending(s) ==> Announced(Pending(s), v))
    // A vport whose port is not ours is announced or still to be enumerated.
    && (v in s.vports && !s.vports[v] ==> Announced(Pending(s), v) || EnumPending(s, v))
    // Every SET but one has been followed by a processed deletion.
    && s.sets[v] <= s.dels[v] + if v in s.done || InHand(s, v) then 1 else 0
  }

  predicate Shape(s: State) {
    && (!s.subscribed ==>
          s.phase == Initial && s.queue == [] && s.eventOp == Rest && s.done == {})
    && (!s.phase.Setting? && s.phase != Aborted ==> s.enumOp == Rest)
    && (s.phase.Dumping? ==> s.phase.must <= s.vports.Keys)
    && !s.enumOp.WantDel?
    && !(s.enumOp.Unrecorded? && s.eventOp.Unrecorded?)
  }

  ghost predicate Inv(s: State) {
    Shape(s) && forall v: VportID :: InvAt(s, v)
  }

  // -------------------------------------------------------------- event sequences

  lemma {:induction false} AnnouncedAppend(p: seq<Event>, v: VportID, e: Event)
    ensures e == New(v) ==> Announced(p + [e], v)
    ensures e != Del(v) && Announced(p, v) ==> Announced(p + [e], v)
    ensures Del(v) in p + [e] <==> Del(v) in p || e == Del(v)
  {
    var q := p + [e];
    if e == New(v) {
      assert q[|p|] == New(v) && q[|p|..] == [e];
    } else if e != Del(v) && Announced(p, v) {
      var i :| 0 <= i < |p| && p[i] == New(v) && Del(v) !in p[i..];
      assert q[i..] == p[i..] + [e];
      assert q[i] == New(v);
    }
  }

  lemma {:induction false} AnnouncedTail(e: Event, p: seq<Event>, v: VportID)
    requires Announced([e] + p, v)
    ensures e != New(v) || Del(v) in p ==> Announced(p, v)
  {
    var q := [e] + p;
    var i :| 0 <= i < |q| && q[i] == New(v) && Del(v) !in q[i..];
    if i > 0 {
      assert q[i..] == p[i - 1..];
      assert p[i - 1] == New(v);
    } else {
      assert q[0..] == q;
    }
  }

  // ------------------------------------------------------------------ preservation

  lemma {:induction false} StartInv(s: State)
    requires Start(s)
    ensures Inv(s)
  {
  }

  /** The pending events after each kind of step. */
  lemma {:induction false} PendingAfter(s: State, step: Step)
    requires Enabled(s, step, true) && Shape(s)
    ensures var p, p' := Pending(s), Pending(Next(s, step));
      match step
      case Create(v) => p' == if s.subscribed then p + [New(v)] else p
      case Delete(v) => p' == if s.subscribed then p + [Del(v)] else p
      case EnumAct => p' == if s.enumOp.id !in s.done && s.enumOp.id in s.vports then p + [New(s.enumOp.id)] else p
      case EventAct =>
        var v := s.eventOp.id;
        && p == [if s.eventOp.Want? then New(v) else Del(v)] + s.queue
        && p' == if s.eventOp.Want? && v !in s.done && v in s.vports then s.queue + [New(v)] else s.queue
      case _ => p' == p
  {
  }

  lemma {:induction false} KernelKeeps(s: State, step: Step, v: VportID)
    requires Shape(s) && InvAt(s, v) && Enabled(s, step, true) && KernelStep(step)
    ensures InvAt(Next(s, step), v)
  {
    hide Announced;
    PendingAfter(s, step);
    AnnouncedAppend(Pending(s), v, if step.Create? then New(step.id) else Del(step.id));
  }

  lemma {:induction false} EnumActKeeps(s: State, v: VportID)
    requires Shape(s) && InvAt(s, v) && Enabled(s, EnumAct, true)
    ensures InvAt(Next(s, EnumAct), v)
  {
    hide Announced;
    PendingAfter(s, EnumAct);
    AnnouncedAppend(Pending(s), v, New(s.enumOp.id));
  }

  lemma {:induction false} EventActKeeps(s: State, v: VportID)
    requires Shape(s) && InvAt(s, v) && Enabled(s, EventAct, true)
    ensures InvAt(Next(s, EventAct), v)
  {
    hide Announced;
    PendingAfter(s, EventAct);
    AnnouncedAppend(s.queue, v, New(s.eventOp.id));
    var e := if s.eventOp.Want? then New(s.eventOp.id) else Del(s.eventOp.id);
    if Announced(Pending(s), v) {
      AnnouncedTail(e, s.queue, v);
    }
  }

  lemma {:induction false} OtherKeeps(s: State, step: Step, v: VportID)
    requires Shape(s) && InvAt(s, v) && Enabled(s, step, true) && !KernelStep(step) && !step.EnumAct? && !step.EventAct?
    ensures InvAt(Next(s, step), v)
  {
    hide Announced;
    PendingAfter(s, step);
  }

  lemma {:induction false} ShapeKept(s: State, step: Step)
    requires Shape(s) && Enabled(s, step, true)
    ensures Shape(Next(s, step))
  {
  }

  /** Every step of the kernel and of either thread keeps the invariant. */
  lemma {:induction false} StepKeeps(s: State, step: Step)
    requires Inv(s) && Enabled(s, step, true)
    ensures Inv(Next(s, step))
  {
    hide InvAt, Shape;
    ShapeKept(s, step);
    forall v: VportID ensures InvAt(Next(s, step), v) {
      if KernelStep(step) {
        KernelKeeps(s, step, v);
      } else if step.EnumAct? {
        EnumActKeeps(s, v);
      } else if step.EventAct? {
        EventActKeeps(s, v);
      } else {
        OtherKeeps(s, step, v);
      }
    }
  }

  /** The kernel may at any time create a vport that does not exist and delete one that does,
      and each thread's next step depends on the other thread only through the lock. */
  lemma {:induction false} Unconstrained(s: State, v: VportID)
    ensures Enabled(s, Create(v), true) <==> v !in s.vports
    ensures Enabled(s, Delete(v), true) <==> v in s.vports
    ensures s.queue != [] && s.eventOp == Rest ==> Enabled(s, Dequeue, true)
    ensures s.eventOp.Unrecorded? ==> Enabled(s, EventRecord, true)
    ensures s.eventOp.Want? || s.eventOp.WantDel? ==> (Enabled(s, EventAct, true) <==> LockFree(s))
    ensures s.phase.Setting? && s.enumOp.Want? ==> (Enabled(s, EnumAct, true) <==> LockFree(s))
    ensures s.phase.Dumping? && v in s.vports && v !in s.phase.reported ==> Enabled(s, Report(v), true)
  {
  }

  // ------------------------------------------------------------------------- runs

  /** A run: the states passed through and the steps between them. */
  ghost predicate IsRun(states: seq<State>, steps: seq<Step>, inOrder: bool) {
    && |states| == |steps| + 1
    && forall i :: 0 <= i < |steps| ==>
         Enabled(states[i], steps[i], inOrder) && states[i + 1] == Next(states[i], steps[i])
  }

  lemma {:induction false} RunKeeps(states: seq<State>, steps: seq<Step>, i: nat)
    requires IsRun(states, steps, true) && Inv(states[0]) && i < |states|
    ensures Inv(states[i])
    decreases i
  {
    hide Inv, Enabled, Next;
    if i > 0 {
      RunKeeps(states, steps, i - 1);
      StepKeeps(states[i - 1], steps[i - 1]);
    }
  }

  /** Nothing left to do: no event unprocessed and the enumeration finished. */
  predicate Quiescent(s: State) {
    s.queue == [] && s.eventOp == Rest && s.phase == Finished
  }

  /** In every state of every run in which the event queue is drained and the enumeration
      has finished, every vport that exists has our upcall port, whatever was created,
      deleted and created again under the same number on the way. */
  lemma {:induction false} QuiescentMeansSet(states: seq<State>, steps: seq<Step>, i: nat, v: VportID)
    requires IsRun(states, steps, true) && Start(states[0]) && i < |states|
    requires Quiescent(states[i]) && v in states[i].vports
    ensures states[i].vports[v]
  {
    hide Enabled, Next;
    StartInv(states[0]);
    RunKeeps(states, steps, i);
    assert InvAt(states[i], v);
  }

  /** In every run, a vport is set at most once more than its deletions were processed: the
      announcement that a SET provokes does not provoke another SET. */
  lemma {:induction false} SetsBounded(states: seq<State>, steps: seq<Step>, i: nat, v: VportID)
    requires IsRun(states, steps, true) && Start(states[0]) && i < |states|
    ensures states[i].sets[v] <= 1 + states[i].dels[v]
  {
    hide Enabled, Next;
    StartInv(states[0]);
    RunKeeps(states, steps, i);
    assert InvAt(states[i], v);
  }

  /** Enumerating before subscribing would not do: a vport that is created in between is
      neither enumerated nor announced. */
  lemma {:induction false} EnumerateFirstMisses(s: State, v: VportID)
    requires Start(s) && s.vports == map[]
    ensures exists states, steps ::
      (IsRun(states, steps, false) && states[0] == s
       && var last := states[|states| - 1]; Quiescent(last) && last.subscribed && v in last.vports && !last.vports[v])
  {
    var s1 := Next(s, StartDump);
    var s2 := Next(s1, EndDump);
    var s3 := Next(s2, Finish);
    var s4 := Next(s3, Create(v));
    var s5 := Next(s4, Subscribe);
    var states, steps := [s, s1, s2, s3, s4, s5], [StartDump, EndDump, Finish, Create(v), Subscribe];
    assert IsRun(states, steps, false);
    assert states[|states| - 1] == s5;
  }

  // ------------------------------------------------------------------ termination

  function EventWeight(e: Event): nat {
    if e.New? then 2 else 6
  }

  function QueueWeight(q: seq<Event>): nat {
    if q == [] then 0 else EventWeight(q[0]) + QueueWeight(q[1..])
  }

  function OpWeight(op: Op): nat {
    match op
    case Rest => 0
    case Want(_) => 1
    case WantDel(_) => 5
    case Unrecorded(_) => 1
  }

  /** Vports that exist and have neither been recorded nor are about to be. */
  function Undone(s: State): set<VportID> {
    s.vports.Keys - s.done - InHands(s)
  }

  function InHands(s: State): set<VportID> {
    (if s.enumOp.Unrecorded? then {s.enumOp.id} else {})
    + (if s.eventOp.Unrecorded? then {s.eventOp.id} else {})
  }

  function Unreported(s: State): set<VportID>
    requires s.phase.Dumping?
  {
    set v | v in s.vports && v !in s.phase.reported
  }

  function PhaseWeight(s: State): nat {
    match s.phase
    case Initial => (if s.subscribed then 3 else 4) + 3 * |s.vports.Keys|
    case Dumping(_, reported) => 2 + 2 * |reported| + 3 * |Unreported(s)|
    case Setting(todo) => 1 + 2 * |todo|
    case _ => 0
  }

  /** What is left to do, once the kernel leaves the vports alone. */
  function Measure(s: State): nat {
    PhaseWeight(s) + QueueWeight(s.queue) + OpWeight(s.enumOp) + OpWeight(s.eventOp) + 4 * |Undone(s)|
  }

  lemma {:induction false} QueueWeightAppend(q: seq<Event>, e: Event)
    ensures QueueWeight(q + [e]) == QueueWeight(q) + EventWeight(e)
    decreases q
  {
    if q == [] {
      assert q + [e] == [e] && [e][1..] == [];
    } else {
      assert (q + [e])[1..] == q[1..] + [e];
      QueueWeightAppend(q[1..], e);
    }
  }

  lemma {:induction false} CardSubset<T>(a: set<T>, b: set<T>)
    requires a <= b
    ensures |a| <= |b|
  {
    assert b == a + (b - a);
  }

  lemma {:induction false} CardRemove<T>(a: set<T>, b: set<T>, x: T)
    requires x in b && a == b - {x}
    ensures |a| == |b| - 1
  {
    assert b == a + {x};
  }

  predicate IsSet(s: State, step: Step) {
    || (step.EnumAct? && s.enumOp.Want? && s.enumOp.id !in s.done && s.enumOp.id in s.vports)
    || (step.EventAct? && s.eventOp.Want? && s.eventOp.id !in s.done && s.eventOp.id in s.vports)
  }

  /** Only a SET and a processed deletion change which vports are undone. */
  lemma {:induction false} UndoneKept(s: State, step: Step)
    requires Shape(s) && Enabled(s, step, true) && !KernelStep(step)
    requires !IsSet(s, step) && !(step.EventAct? && s.eventOp.WantDel?)
    ensures Undone(Next(s, step)) == Undone(s) && Next(s, step).vports == s.vports
  {
    hide Shape;
  }

  lemma {:induction false} UndoneSet(s: State, step: Step)
    requires Shape(s) && Enabled(s, step, true) && IsSet(s, step)
    ensures |Undone(Next(s, step))| == |Undone(s)| - 1
  {
    hide Shape, Next, Enabled, InHands;
    SetTakesInHand(s, step);
    OneMoreInHand(s.vports.Keys, s.done, if step.EnumAct? then s.enumOp.id else s.eventOp.id);
  }

  lemma {:induction false} SetTakesInHand(s: State, step: Step)
    requires Enabled(s, step, true) && IsSet(s, step)
    ensures step.EnumAct? || step.EventAct?
    ensures var v := if step.EnumAct? then s.enumOp.id else s.eventOp.id; var s' := Next(s, step);
      && s'.vports.Keys == s.vports.Keys && s'.done == s.done && InHands(s) == {} && InHands(s') == {v}
      && v in s.vports && v !in s.done
  {
  }

  lemma {:induction false} OneMoreInHand(keys: set<VportID>, done: set<VportID>, v: VportID)
    requires v in keys && v !in done
    ensures |keys - done - {v}| == |keys - done - {}| - 1
  {
    CardRemove(keys - done - {v}, keys - done - {}, v);
  }

  lemma {:induction false} UndoneDeleted(s: State)
    requires Shape(s) && Enabled(s, EventAct, true) && s.eventOp.WantDel?
    ensures |Undone(Next(s, EventAct))| <= |Undone(s)| + 1
  {
    hide Shape;
    var s' := Next(s, EventAct);
    assert InHands(s') == InHands(s);
    OneLessDone(s.vports.Keys, s.done, InHands(s), s.eventOp.id);
  }

  lemma {:induction false} OneLessDone(keys: set<VportID>, done: set<VportID>, hands: set<VportID>, v: VportID)
    ensures |keys - (done - {v}) - hands| <= |keys - done - hands| + 1
  {
    var u, u' := keys - done - hands, keys - (done - {v}) - hands;
    assert u' <= u + {v};
    CardSubset(u', u + {v});
    CardAdd(u, v);
  }

  lemma {:induction false} CardAdd<T>(a: set<T>, x: T)
    ensures |a + {x}| <= |a| + 1
  {
  }

  lemma {:induction false} SetDecreases(s: State, step: Step)
    requires Shape(s) && Enabled(s, step, true) && IsSet(s, step)
    ensures Measure(Next(s, step)) < Measure(s)
  {
    hide QueueWeight, Undone, Unreported;
    UndoneSet(s, step);
    if step.EventAct? {
      PhaseWeightKept(s, step);
    }
    QueueWeightAppend(s.queue, New(if step.EnumAct? then s.enumOp.id else s.eventOp.id));
  }

  lemma {:induction false} DeletionDecreases(s: State)
    requires Shape(s) && Enabled(s, EventAct, true) && s.eventOp.WantDel?
    ensures Measure(Next(s, EventAct)) < Measure(s)
  {
    hide QueueWeight, Undone, Unreported;
    UndoneDeleted(s);
    PhaseWeightKept(s, EventAct);
  }

  /** The enumeration's share changes only through its own steps. */
  lemma {:induction false} PhaseWeightKept(s: State, step: Step)
    requires Enabled(s, step, true) && (step.Dequeue? || step.EventAct? || step.EventRecord?)
    ensures PhaseWeight(Next(s, step)) == PhaseWeight(s)
  {
    var s' := Next(s, step);
    assert s'.vports.Keys == s.vports.Keys;
    if s.phase.Dumping? {
      assert Unreported(s') == Unreported(s);
    }
  }

  lemma {:induction false} ReportDecreases(s: State, v: VportID)
    requires Shape(s) && Enabled(s, Report(v), true)
    ensures Measure(Next(s, Report(v))) < Measure(s)
  {
    hide QueueWeight, Undone;
    var s' := Next(s, Report(v));
    UndoneKept(s, Report(v));
    assert Unreported(s') == Unreported(s) - {v};
    CardRemove(Unreported(s'), Unreported(s), v);
  }

  lemma {:induction false} StartDumpDecreases(s: State)
    requires Shape(s) && Enabled(s, StartDump, true)
    ensures Measure(Next(s, StartDump)) < Measure(s)
  {
    hide QueueWeight, Undone;
    UndoneKept(s, StartDump);
    assert Unreported(Next(s, StartDump)) == s.vports.Keys;
  }

  lemma {:induction false} EnumStepDecreases(s: State, step: Step)
    requires Shape(s) && Enabled(s, step, true)
    requires step.Subscribe? || step.EndDump? || step.Pick? || step.Finish? || step.EnumRecord?
      || (step.EnumAct? && !IsSet(s, step))
    ensures Measure(Next(s, step)) < Measure(s)
  {
    hide QueueWeight, Undone, Unreported;
    UndoneKept(s, step);
  }

  lemma {:induction false} EventStepDecreases(s: State, step: Step)
    requires Shape(s) && Enabled(s, step, true)
    requires step.Dequeue? || step.EventRecord? || (step.EventAct? && !s.eventOp.WantDel? && !IsSet(s, step))
    ensures Measure(Next(s, step)) < Measure(s)
  {
    hide Undone, PhaseWeight;
    UndoneKept(s, step);
    PhaseWeightKept(s, step);
  }

  /** Every step that is not the kernel's brings the end nearer. */
  lemma {:induction false} ThreadStepDecreases(s: State, step: Step)
    requires Shape(s) && Enabled(s, step, true) && !KernelStep(step)
    ensures Measure(Next(s, step)) < Measure(s)
  {
    hide Measure, Shape, Next;
    if IsSet(s, step) {
      SetDecreases(s, step);
    } else {
      match step
      case StartDump => StartDumpDecreases(s);
      case Report(v) => ReportDecreases(s, v);
      case EventAct =>
        if s.eventOp.WantDel? {
          DeletionDecreases(s);
        } else {
          EventStepDecreases(s, step);
        }
      case Dequeue => EventStepDecreases(s, step);
      case EventRecord => EventStepDecreases(s, step);
      case _ => EnumStepDecreases(s, step);
    }
  }

  /** Some thread can always move, until everything is quiet. */
  lemma {:induction false} Progress(s: State)
    requires Inv(s) && !Quiescent(s) && s.phase != Aborted
    ensures exists step :: Enabled(s, step, true) && !KernelStep(step)
  {
    hide Inv;
    assert Shape(s) by {
      InvShape(s);
    }
    if s.eventOp.Unrecorded? {
      assert Enabled(s, EventRecord, true);
    } else if s.enumOp.Unrecorded? {
      assert Enabled(s, EnumRecord, true);
    } else if s.eventOp != Rest {
      assert Enabled(s, EventAct, true);
    } else if s.queue != [] {
      assert Enabled(s, Dequeue, true);
    } else {
      EnumProgress(s);
    }
  }

  lemma {:induction false} InvShape(s: State)
    requires Inv(s)
    ensures Shape(s)
  {
  }

  lemma {:induction false} EnumProgress(s: State)
    requires Shape(s) && LockFree(s) && s.phase != Finished && s.phase != Aborted
    ensures exists step :: Enabled(s, step, true) && !KernelStep(step)
  {
    match s.phase
    case Initial =>
      assert Enabled(s, if s.subscribed then StartDump else Subscribe, true);
    case Dumping(must, reported) =>
      if v :| v in must && v !in reported {
        assert Enabled(s, Report(v), true);
      } else {
        assert Enabled(s, EndDump, true);
      }
    case Setting(todo) =>
      if s.enumOp.Want? {
        assert Enabled(s, EnumAct, true);
      } else {
        assert Enabled(s, if todo == [] then Finish else Pick, true);
      }
  }

  /** Once the kernel leaves the vports alone, the threads take at most `Measure` more steps:
      the announcements that SETs provoke do not keep them going.  When they can take no
      more, either the enumeration was aborted or every vport has our upcall port. */
  lemma {:induction false} LoopEnds(states: seq<State>, steps: seq<Step>)
    requires IsRun(states, steps, true) && Inv(states[0])
    requires forall i :: 0 <= i < |steps| ==> !KernelStep(steps[i])
    ensures |steps| + Measure(states[|steps|]) <= Measure(states[0])
    ensures var last := states[|steps|];
      (forall step :: Enabled(last, step, true) ==> KernelStep(step)) ==>
        last.phase == Aborted || (Quiescent(last) && forall v :: v in last.vports ==> last.vports[v])
  {
    hide Inv, Enabled, Next, Measure;
    MeasureRun(states, steps, |steps|);
    RunKeeps(states, steps, |steps|);
    var last := states[|steps|];
    if last.phase != Aborted {
      if !Quiescent(last) {
        Progress(last);
      } else {
        forall v | v in last.vports ensures last.vports[v] {
          QuietSet(last, v);
        }
      }
    }
  }

  lemma {:induction false} QuietSet(s: State, v: VportID)
    requires Inv(s) && Quiescent(s) && v in s.vports
    ensures s.vports[v]
  {
    assert InvAt(s, v);
  }

  lemma {:induction false} MeasureRun(states: seq<State>, steps: seq<Step>, n: nat)
    requires IsRun(states, steps, true) && Inv(states[0]) && n <= |steps|
    requires forall i :: 0 <= i < |steps| ==> !KernelStep(steps[i])
    ensures n + Measure(states[n]) <= Measure(states[0])
    decreases n
  {
    hide Inv, Enabled, Next, Measure;
    if n > 0 {
      MeasureRun(states, steps, n - 1);
      RunKeeps(states, steps, n - 1);
      InvShape(states[n - 1]);
      ThreadStepDecreases(states[n - 1], steps[n - 1]);
    }
  }
}
