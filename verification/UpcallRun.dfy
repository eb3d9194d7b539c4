/** A run of the upcall port protocol with steps of every kind in it. */
module UpcallRun {
  import opened Bytes
  import opened UpcallPorts

  /** The steps lead from `s` to `t`. */
  ghost predicate Leads(s: State, steps: seq<Step>, t: State)
    decreases |steps|
  {
    if steps == [] then s == t else Enabled(s, steps[0], true) && Leads(Next(s, steps[0]), steps[1..], t)
  }

  lemma {:induction false} LeadsJoin(s: State, x: seq<Step>, t: State, y: seq<Step>, u: State)
    requires Leads(s, x, t) && Leads(t, y, u)
    ensures Leads(s, x + y, u)
    decreases |x|
  {
    hide Next;
    if x == [] {
      assert x + y == y;
    } else {
      assert (x + y)[0] == x[0] && (x + y)[1..] == x[1..] + y;
      LeadsJoin(Next(s, x[0]), x[1..], t, y, u);
    }
  }

  lemma {:induction false} LeadsOne(s: State, step: Step)
    requires Enabled(s, step, true)
    ensures Leads(s, [step], Next(s, step))
  {
    hide Next;
    assert [step][1..] == [];
  }

  lemma {:induction false} LeadsTwo(s: State, x: Step, y: Step)
    requires Enabled(s, x, true) && Enabled(Next(s, x), y, true)
    ensures Leads(s, [x, y], Next(Next(s, x), y))
  {
    hide Next;
    LeadsOne(s, x);
    LeadsOne(Next(s, x), y);
    LeadsJoin(s, [x], Next(s, x), [y], Next(Next(s, x), y));
    assert [x] + [y] == [x, y];
  }

  lemma {:induction false} LeadsThree(s: State, x: Step, y: Step, z: Step)
    requires Enabled(s, x, true) && Enabled(Next(s, x), y, true) && Enabled(Next(Next(s, x), y), z, true)
    ensures Leads(s, [x, y, z], Next(Next(Next(s, x), y), z))
  {
    hide Next;
    LeadsTwo(s, x, y);
    LeadsOne(Next(Next(s, x), y), z);
    LeadsJoin(s, [x, y], Next(Next(s, x), y), [z], Next(Next(Next(s, x), y), z));
    assert [x, y] + [z] == [x, y, z];
  }

  /** Steps that lead somewhere are a run. */
  lemma {:induction false} LeadsRun(s: State, steps: seq<Step>, t: State) returns (states: seq<State>)
    requires Leads(s, steps, t)
    ensures IsRun(states, steps, true) && states[0] == s && states[|steps|] == t
    decreases |steps|
  {
    hide Next;
    if steps == [] {
      states := [s];
    } else {
      var rest := LeadsRun(Next(s, steps[0]), steps[1..], t);
      states := [s] + rest;
      forall i | 0 <= i < |steps|
        ensures Enabled(states[i], steps[i], true) && states[i + 1] == Next(states[i], steps[i])
      {
        if i > 0 {
          assert states[i] == rest[i - 1] && states[i + 1] == rest[i] && steps[i] == steps[1..][i - 1];
        }
      }
    }
  }

  function Before(a: VportID): State {
    State(map[a := false], false, [], {}, Initial, Rest, Rest, multiset{}, multiset{})
  }

  function Enumerated(a: VportID, b: VportID): State {
    State(map[a := false, b := false], true, [New(b)], {}, Setting([b, a]), Rest, Rest, multiset{}, multiset{})
  }

  function HalfSet(a: VportID, b: VportID): State {
    State(map[a := false, b := true], true, [New(b)], {b}, Setting([b, a]), Rest, Rest, multiset{b}, multiset{})
  }

  function AllSet(a: VportID, b: VportID): State {
    State(map[a := true, b := true], true, [New(b), New(a)], {a, b}, Finished, Rest, Rest, multiset{a, b}, multiset{})
  }

  function Reused(a: VportID, b: VportID): State {
    State(map[a := true, b := false], true, [Del(b), New(b)], {a, b}, Finished, Rest, Rest, multiset{a, b}, multiset{})
  }

  function Quiet(a: VportID, b: VportID): State {
    State(map[a := true, b := true], true, [], {a, b}, Finished, Rest, Rest, multiset{a, b, b}, multiset{b})
  }

  /** A vport that is created during the dump is announced and reported. */
  lemma {:induction false} Enumerating(a: VportID, b: VportID)
    requires a != b
    ensures Leads(Before(a), [Subscribe, StartDump, Create(b)] + [Report(b), Report(a), EndDump], Enumerated(a, b))
  {
    var s := Before(a);
    LeadsThree(s, Subscribe, StartDump, Create(b));
    var t := Next(Next(Next(s, Subscribe), StartDump), Create(b));
    assert s.vports.Keys == {a} && t.vports == map[a := false, b := false];
    assert t == State(t.vports, true, [New(b)], {}, Dumping({a}, []), Rest, Rest, multiset{}, multiset{});
    LeadsThree(t, Report(b), Report(a), EndDump);
    assert Next(Next(t, Report(b)), Report(a)).phase.reported == [b, a];
    assert Next(Next(Next(t, Report(b)), Report(a)), EndDump) == Enumerated(a, b);
    LeadsJoin(s, [Subscribe, StartDump, Create(b)], t, [Report(b), Report(a), EndDump], Enumerated(a, b));
  }

  /** The event thread is first to set it. */
  lemma {:induction false} EventSets(a: VportID, b: VportID)
    requires a != b
    ensures Leads(Enumerated(a, b), [Dequeue, EventAct, EventRecord], HalfSet(a, b))
  {
    var s := Enumerated(a, b);
    LeadsThree(s, Dequeue, EventAct, EventRecord);
    assert Next(Next(Next(s, Dequeue), EventAct), EventRecord) == HalfSet(a, b);
  }

  lemma {:induction false} SkipDone(a: VportID, b: VportID)
    requires a != b
    ensures Leads(HalfSet(a, b), [Pick, EnumAct], HalfSet(a, b).(phase := Setting([a])))
  {
    hide Leads;
    var s := HalfSet(a, b);
    LeadsTwo(s, Pick, EnumAct);
    assert Next(Next(s, Pick), EnumAct) == s.(phase := Setting([a]));
  }

  lemma {:induction false} SetOther(a: VportID, b: VportID) returns (u: State)
    requires a != b
    ensures Leads(HalfSet(a, b).(phase := Setting([a])), [Pick, EnumAct], u)
    ensures Leads(u, [EnumRecord, Finish], AllSet(a, b))
  {
    hide Leads;
    var t := HalfSet(a, b).(phase := Setting([a]));
    LeadsTwo(t, Pick, EnumAct);
    u := Next(Next(t, Pick), EnumAct);
    LeadsTwo(u, EnumRecord, Finish);
    assert Next(Next(u, EnumRecord), Finish) == AllSet(a, b);
  }

  /** The enumerating thread skips it and sets the other. */
  lemma {:induction false} EnumerationSets(a: VportID, b: VportID)
    requires a != b
    ensures Leads(HalfSet(a, b), [Pick, EnumAct] + [Pick, EnumAct] + [EnumRecord, Finish], AllSet(a, b))
  {
    var s := HalfSet(a, b);
    hide Leads, Enabled, Next;
    var t := s.(phase := Setting([a]));
    SkipDone(a, b);
    var u := SetOther(a, b);
    LeadsJoin(s, [Pick, EnumAct], t, [Pick, EnumAct], u);
    LeadsJoin(s, [Pick, EnumAct] + [Pick, EnumAct], u, [EnumRecord, Finish], AllSet(a, b));
  }

  /** The number is given to another vport before the event thread gets to either echo. */
  lemma {:induction false} NumberReused(a: VportID, b: VportID)
    requires a != b
    ensures Leads(AllSet(a, b), [Delete(b), Create(b)] + [Dequeue, EventAct] + [Dequeue, EventAct], Reused(a, b))
  {
    var s := AllSet(a, b);
    LeadsTwo(s, Delete(b), Create(b));
    var t := Next(Next(s, Delete(b)), Create(b));
    assert t == s.(vports := map[a := true, b := false], queue := [New(b), New(a), Del(b), New(b)]);
    LeadsTwo(t, Dequeue, EventAct);
    var u := Next(Next(t, Dequeue), EventAct);
    assert u == t.(queue := [New(a), Del(b), New(b)]);
    LeadsTwo(u, Dequeue, EventAct);
    assert Next(Next(u, Dequeue), EventAct) == Reused(a, b);
    LeadsJoin(s, [Delete(b), Create(b)], t, [Dequeue, EventAct], u);
    LeadsJoin(s, [Delete(b), Create(b)] + [Dequeue, EventAct], u, [Dequeue, EventAct], Reused(a, b));
  }

  function Forgotten(a: VportID, b: VportID): State {
    Reused(a, b).(queue := [New(b)], done := {a}, dels := multiset{b})
  }

  lemma {:induction false} Forget(a: VportID, b: VportID)
    requires a != b
    ensures Leads(Reused(a, b), [Dequeue, EventAct], Forgotten(a, b))
  {
    hide Leads;
    LeadsTwo(Reused(a, b), Dequeue, EventAct);
    assert Next(Next(Reused(a, b), Dequeue), EventAct) == Forgotten(a, b);
  }

  lemma {:induction false} SetNew(a: VportID, b: VportID)
    requires a != b
    ensures Leads(Forgotten(a, b), [Dequeue, EventAct, EventRecord], Quiet(a, b).(queue := [New(b)]))
  {
    hide Leads;
    var t := Forgotten(a, b);
    LeadsThree(t, Dequeue, EventAct, EventRecord);
    assert Next(Next(Next(t, Dequeue), EventAct), EventRecord) == Quiet(a, b).(queue := [New(b)]);
  }

  lemma {:induction false} SkipEcho(a: VportID, b: VportID)
    requires a != b
    ensures Leads(Quiet(a, b).(queue := [New(b)]), [Dequeue, EventAct], Quiet(a, b))
  {
    hide Leads;
    var u := Quiet(a, b).(queue := [New(b)]);
    LeadsTwo(u, Dequeue, EventAct);
    assert Next(Next(u, Dequeue), EventAct) == Quiet(a, b);
  }

  /** The deletion is processed, and the new vport is set. */
  lemma {:induction false} SetAgain(a: VportID, b: VportID)
    requires a != b
    ensures Leads(Reused(a, b), [Dequeue, EventAct] + [Dequeue, EventAct, EventRecord] + [Dequeue, EventAct],
                  Quiet(a, b))
  {
    hide Leads, Enabled, Next;
    var s, t, u := Reused(a, b), Forgotten(a, b), Quiet(a, b).(queue := [New(b)]);
    Forget(a, b);
    SetNew(a, b);
    SkipEcho(a, b);
    LeadsJoin(s, [Dequeue, EventAct], t, [Dequeue, EventAct, EventRecord], u);
    LeadsJoin(s, [Dequeue, EventAct] + [Dequeue, EventAct, EventRecord], u, [Dequeue, EventAct], Quiet(a, b));
  }

  /** For any two numbers there is a run with steps of every kind that comes to rest: a vport is
      created during the dump, both threads come to it, it is deleted and its number reused
      before its echo is read, and it is set again.  The bound on SETs is reached. */
  lemma {:induction false} BoundReached(a: VportID, b: VportID)
    requires a != b
    ensures exists states, steps ::
      (IsRun(states, steps, true) && Start(states[0]) && Create(b) in steps && Delete(b) in steps && Report(b) in steps
       && var last := states[|steps|];
       Quiescent(last) && b in last.vports && last.vports[b] && last.sets[b] == 1 + last.dels[b] == 2)
  {
    hide Enabled, Next, Leads;
    Enumerating(a, b);
    EventSets(a, b);
    EnumerationSets(a, b);
    NumberReused(a, b);
    SetAgain(a, b);
    var x := [Subscribe, StartDump, Create(b)] + [Report(b), Report(a), EndDump];
    var y := [Dequeue, EventAct, EventRecord];
    var z := [Pick, EnumAct] + [Pick, EnumAct] + [EnumRecord, Finish];
    var v := [Delete(b), Create(b)] + [Dequeue, EventAct] + [Dequeue, EventAct];
    var w := [Dequeue, EventAct] + [Dequeue, EventAct, EventRecord] + [Dequeue, EventAct];
    LeadsJoin(Before(a), x, Enumerated(a, b), y, HalfSet(a, b));
    LeadsJoin(Before(a), x + y, HalfSet(a, b), z, AllSet(a, b));
    LeadsJoin(Before(a), x + y + z, AllSet(a, b), v, Reused(a, b));
    LeadsJoin(Before(a), x + y + z + v, Reused(a, b), w, Quiet(a, b));
    var steps := x + y + z + v + w;
    var states := LeadsRun(Before(a), steps, Quiet(a, b));
    assert steps[2] == Create(b) && steps[3] == Report(b) && steps[15] == Delete(b);
    assert Start(states[0]) && Quiescent(states[|steps|]);
    assert Quiet(a, b).sets[b] == 2 && Quiet(a, b).dels[b] == 1;
  }
}
