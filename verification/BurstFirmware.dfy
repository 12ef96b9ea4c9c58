/** The firmware of the burst generator: the handlers, changing tables, flags and tasks in place. */
module BurstFirmware {
  import opened BurstMasks
  import opened BurstTables
  import opened BurstTasks
  import opened BurstGen

  function RunBy(c: Call): seq<(nat, nat)>
  {
    if c.RunTask? then [(c.id, c.now)] else []
  }

  function HandledBy(c: Call): seq<Action>
  {
    if c.Arrive? then [c.action] else []
  }

  /** The bursts of the tasks that a list of calls runs, with the time of each, in order. */
  function TasksRun(calls: seq<Call>): seq<(nat, nat)>
  {
    if calls == [] then [] else RunBy(calls[0]) + TasksRun(calls[1..])
  }

  function ActionsHandled(calls: seq<Call>): seq<Action>
  {
    if calls == [] then [] else HandledBy(calls[0]) + ActionsHandled(calls[1..])
  }

  lemma {:induction false} TasksRunAppend(a: seq<Call>, b: seq<Call>)
    ensures TasksRun(a + b) == TasksRun(a) + TasksRun(b)
  {
    hide RunBy;
    if a == [] {
      assert a + b == b;
    } else {
      assert (a + b)[1..] == a[1..] + b;
      TasksRunAppend(a[1..], b);
    }
  }

  lemma {:induction false} ActionsAppend(a: seq<Call>, b: seq<Call>)
    ensures ActionsHandled(a + b) == ActionsHandled(a) + ActionsHandled(b)
  {
    hide HandledBy;
    if a == [] {
      assert a + b == b;
    } else {
      assert (a + b)[1..] == a[1..] + b;
      ActionsAppend(a[1..], b);
    }
  }

  /** Handled or still in the queue: nothing is lost when `more` are handled and `arrived` are queued. */
  lemma NothingLost<T>(handled: seq<T>, q: seq<T>, before: seq<T>, more: seq<T>, rest: seq<T>, arrived: seq<T>)
    requires handled + q == before && more + rest == q + arrived
    ensures (handled + more) + rest == before + arrived
  {
    assert (handled + more) + rest == handled + (more + rest);
    assert handled + (q + arrived) == (handled + q) + arrived;
  }

  function Arrivals(actions: seq<Action>): (calls: seq<Call>)
    ensures |calls| == |actions|
    ensures forall i | 0 <= i < |calls| :: calls[i] == Arrive(actions[i])
  {
    if actions == [] then [] else [Arrive(actions[0])] + Arrivals(actions[1..])
  }

  lemma {:induction false} ArrivalsOnly(actions: seq<Action>)
    ensures TasksRun(Arrivals(actions)) == [] && ActionsHandled(Arrivals(actions)) == actions
  {
    if actions != [] {
      assert Arrivals(actions)[1..] == Arrivals(actions[1..]);
      ArrivalsOnly(actions[1..]);
    }
  }

  /** A task and then some actions. */
  function Turn(id: nat, now: nat, actions: seq<Action>): seq<Call>
  {
    [RunTask(id, now)] + Arrivals(actions)
  }

  lemma OneTurn(s: State, id: nat, now: nat, actions: seq<Action>)
    requires Sized(s)
    ensures var calls := Turn(id, now, actions);
      && Run(s, calls) == Run(Apply(s, RunTask(id, now)), Arrivals(actions))
      && OpReady(calls) && TasksRun(calls) == [(id, now)] && ActionsHandled(calls) == actions
  {
    hide Apply;
    assert Turn(id, now, actions)[1..] == Arrivals(actions);
    ArrivalsOnly(actions);
  }

  lemma OpReadyAppend(a: seq<Call>, b: seq<Call>)
    ensures OpReady([])
    ensures OpReady(a) && OpReady(b) ==> OpReady(a + b)
  {
  }

  function Least(a: nat, b: nat): nat { if a < b then a else b }

  class Firmware {
    const tasks: array<Task>
    const trigConfigs: array<Config>
    const toggConfigs: array<Config>
    var trigCtrl: Control
    var toggCtrl: Control
    var created: bv32
    var cycled: bv32
    var sent: seq<Message>        // what went to the event input of the ECA
    var queue: seq<Action>        // what the ECA has queued for the embedded CPU

    ghost predicate Valid()
      reads tasks
    {
      && tasks.Length == N_BURSTS && trigConfigs.Length == N_CONFIGS && toggConfigs.Length == N_CONFIGS
      && trigConfigs != toggConfigs
      && !IsValid(tasks[0].flag)
    }

    ghost function Abs(): (s: State)
      requires Valid()
      reads this`trigCtrl, this`toggCtrl, this`created, this`cycled, this`sent, tasks, trigConfigs, toggConfigs
      ensures Sized(s)
    {
      State(tasks[..], trigConfigs[..], toggConfigs[..], trigCtrl, toggCtrl, created, cycled, sent)
    }

    /** `setupTasks`: everything is cleared, so the tables are the inverse of the declarations. */
    constructor ()
      ensures Valid() && fresh(tasks) && fresh(trigConfigs) && fresh(toggConfigs)
      ensures Inv(Abs()) && queue == [] && sent == []
      ensures tasks.Length == 17 && trigConfigs.Length == 64 && toggConfigs.Length == 64
    {
      tasks := new Task[N_BURSTS](i => Task(0, CTL_DIS, 0, 0, 0, 0, 0, 0, 0, 0, 0, 0, 0));
      trigConfigs := new Config[N_CONFIGS](i => Config(0, 0));
      toggConfigs := new Config[N_CONFIGS](i => Config(0, 0));
      trigCtrl, toggCtrl := Control(0, 0), Control(0, 0);
      created, cycled := 0, 0;
      sent, queue := [], [];
      new;
      FlagsAre();
      ClearedIsInv(Abs());
    }

    // ---------------------------------------------------------------- one pass of a task

    /** The first part of `triggerIoActions`: take over a pending trigger, or else a pending toggle. */
    method TakeFlags(id: nat)
      requires Valid() && IsBurst(id)
      modifies this`trigCtrl, this`toggCtrl, this`cycled, tasks
      ensures Valid() && Abs() == Put(old(Abs()), id, Consume(ViewOf(old(Abs()), id)))
      ensures !Has(trigCtrl.bursts, id)
      ensures Has(toggCtrl.bursts, id) <==> old(Has(trigCtrl.bursts, id)) && old(Has(toggCtrl.bursts, id))
    {
      hide Has, With, Without, Quotient, IsValid, AfterToggle, OverAlready;
      SetSame(trigCtrl.bursts, id);
      SetSame(toggCtrl.bursts, id);
      SetSame(cycled, id);
      HasWith(trigCtrl.bursts, id, id);
      HasWith(toggCtrl.bursts, id, id);
      ghost var before := Abs();
      var t := tasks[id];
      if Has(trigCtrl.bursts, id) {
        trigCtrl := trigCtrl.(bursts := Without(trigCtrl.bursts, id));
        tasks[id] := t.(lasttick := 0, failed := 0, deadline := trigCtrl.deadline + t.setup);
      } else if Has(toggCtrl.bursts, id) {
        toggCtrl := toggCtrl.(bursts := Without(toggCtrl.bursts, id));
        TakeToggle(id);
      }
      assert tasks[..] == before.tasks[id := tasks[id]];
    }

    /** What a toggle does to its burst. */
    method TakeToggle(id: nat)
      requires Valid() && IsBurst(id)
      modifies this`cycled, tasks
      ensures Valid() && tasks[..] == old(tasks[..])[id := AfterToggle(old(tasks[id]), toggCtrl.deadline)]
      ensures cycled == if OverAlready(old(tasks[id]), toggCtrl.deadline) then With(old(cycled), id) else old(cycled)
    {
      hide Has, With, Quotient, IsValid;
      var t := tasks[id];
      if t.deadline == 0 {
        tasks[id] := t.(cycle := 0);
      } else if t.deadline >= toggCtrl.deadline {
        tasks[id] := t.(deadline := 0, cycle := 0);
        cycled := With(cycled, id);
      } else if t.cycle != 0 {
        var remaining := toggCtrl.deadline - t.deadline;
        if remaining < t.period {
          tasks[id] := t.(cycle := 1);
        } else {
          tasks[id] := t.(cycle := Quotient(remaining, t.period) + 1);
        }
      }
      assert tasks[..] == old(tasks[..])[id := tasks[id]];
    }

    /** The second part: judge the task at time `now`, and inject its message if it is due. */
    method Fire(id: nat, now: nat) returns (result: Status)
      requires Valid() && IsBurst(id)
      modifies this`cycled, this`sent, tasks
      ensures Valid()
      ensures var s, t := old(Abs()), old(tasks[id]);
        if Verdict(t, now) == Ok && Due(t, now) then
          && Abs() == s.(tasks := s.tasks[id := Fired(t, now)],
                         cycled := if t.cycle == 1 then With(s.cycled, id) else s.cycled,
                         sent := s.sent + [Message(id, t.deadline, now)])
          && result == Ok
        else
          && Abs() == s.(tasks := s.tasks[id := Stamped(t, now)])
          && result == if Verdict(t, now) == Ok then Idle else Verdict(t, now)
    {
      hide With, DisabledTest, IsValid;
      ghost var before := Abs();
      result := Ok;
      if tasks[id].cycle == 0 { result := NotReady; }
      if DisabledTest(tasks[id].flag) != 0 { result := Disabled; }
      if tasks[id].deadline == 0 { result := NotReady; }
      var elapsed: int := tasks[id].deadline - now;
      if elapsed <= 0 {
        if tasks[id].failed == 0 { tasks[id] := tasks[id].(failed := now); }
        result := Error;
      }
      if result != Ok {
        assert tasks[..] == before.tasks[id := tasks[id]];
        return;
      }
      if tasks[id].lasttick == 0 || (elapsed < tasks[id].period && tasks[id].lasttick < now) {
        sent := sent + [Message(id, tasks[id].deadline, now)];
        Advance(id, now);
        return;
      }
      assert tasks[..] == before.tasks[id := tasks[id]];
      result := Idle;
    }

    /** What follows an injection: the next deadline, and one cycle less. */
    method Advance(id: nat, now: nat)
      requires Valid() && IsBurst(id)
      modifies this`cycled, tasks
      ensures Valid()
      ensures var s, t := old(Abs()), old(tasks[id]);
        Abs() == s.(tasks := s.tasks[id := Fired(t, now)],
                    cycled := if t.cycle == 1 then With(s.cycled, id) else s.cycled)
    {
      hide With, IsValid;
      ghost var before := Abs();
      tasks[id] := tasks[id].(action := now);
      tasks[id] := tasks[id].(lasttick := tasks[id].deadline);
      tasks[id] := tasks[id].(deadline := tasks[id].deadline + tasks[id].period);
      if tasks[id].cycle > 0 {
        tasks[id] := tasks[id].(cycle := tasks[id].cycle - 1);
        if tasks[id].cycle == 0 {
          tasks[id] := tasks[id].(deadline := 0);
          cycled := With(cycled, id);
        }
      }
      assert tasks[..] == before.tasks[id := tasks[id]];
    }

    /** `triggerIoActions`.  `now` is what the system clock shows. */
    method TriggerIoActions(id: nat, now: nat) returns (result: Status)
      requires Valid() && id < N_BURSTS
      modifies this`trigCtrl, this`toggCtrl, this`cycled, this`sent, tasks
      ensures Valid() && Abs() == Apply(old(Abs()), RunTask(id, now))
      ensures result == if id == 0 then Ok else Result(ViewOf(old(Abs()), id), now)
      ensures id == 0 ==> Abs() == old(Abs())
      ensures id != 0 ==>
        && !Has(trigCtrl.bursts, id)
        && (Has(toggCtrl.bursts, id) <==> old(Has(trigCtrl.bursts, id)) && old(Has(toggCtrl.bursts, id)))
        && trigCtrl.deadline == old(trigCtrl.deadline) && toggCtrl.deadline == old(toggCtrl.deadline)
      ensures forall b | IsBurst(b) && b != id :: ViewOf(Abs(), b) == ViewOf(old(Abs()), b)
      ensures id != 0 && old(Has(trigCtrl.bursts, id)) ==>
        var d := old(trigCtrl.deadline + tasks[id].setup);
        sent == old(sent) + if old(tasks[id].cycle) != 0 && now < d then [Message(id, d, now)] else []
    {
      hide Has, Put, Consume, Verdict, Due, Fired, Stamped, With, ViewOf, IsValid;
      if id == 0 {
        return Ok;
      }
      ghost var s := Abs();
      Passes(id, now);
      PassTakesOver(s, id, now);
      if Has(s.trigCtrl.bursts, id) { TriggerSends(s, id, now); }
      result := TakeAndFire(id, now);
    }

    /** The two parts of a pass. */
    method TakeAndFire(id: nat, now: nat) returns (result: Status)
      requires Valid() && IsBurst(id)
      modifies this`trigCtrl, this`toggCtrl, this`cycled, this`sent, tasks
      ensures Valid() && Abs() == AfterTask(old(Abs()), id, now)
      ensures result == Result(ViewOf(old(Abs()), id), now)
    {
      hide Has, Put, Consume, Verdict, Due, Fired, Stamped, With, ViewOf, IsValid;
      ghost var s := Abs();
      TakeFlags(id);
      TakenTask(s, id, Consume(ViewOf(s, id)));
      result := Fire(id, now);
      PassIsBothHalves(s, id, now);
    }

    lemma Passes(id: nat, now: nat)
      requires Valid() && IsBurst(id)
      ensures Apply(Abs(), RunTask(id, now)) == AfterTask(Abs(), id, now)
    {
      hide AfterTask, Abs, IsValid;
    }

    // ---------------------------------------------------------------- events

    /** What `ecaHandler` does with one action: the last slots that hold the event decide. */
    method HandleAction(a: Action)
      requires Valid()
      modifies this`trigCtrl, this`toggCtrl
      ensures Valid() && Abs() == AfterAction(old(Abs()), a)
      ensures a.tag != 0xb2b2_b2b2 ==> trigCtrl == old(trigCtrl) && toggCtrl == old(toggCtrl)
    {
      hide Or, IsValid;
      if a.tag == MY_ACT_TAG {
        var deadline := a.deadline;
        if a.param != 0 { deadline := deadline + a.param; }
        var trigger, toggle := FindEvent(a.event);
        if trigger != N_CONFIGS {
          trigCtrl := trigCtrl.(bursts := Or(trigCtrl.bursts, trigConfigs[trigger].bursts));
          trigCtrl := trigCtrl.(deadline := deadline);
        } else if toggle != N_CONFIGS {
          toggCtrl := toggCtrl.(bursts := Or(toggCtrl.bursts, toggConfigs[toggle].bursts));
          toggCtrl := toggCtrl.(deadline := deadline);
        }
      }
    }

    /** The search of `ecaHandler`, in both tables at once. */
    method FindEvent(event: nat) returns (trigger: nat, toggle: nat)
      requires Valid()
      ensures trigger == LastMatch(trigConfigs[..], event, N_CONFIGS)
      ensures toggle == LastMatch(toggConfigs[..], event, N_CONFIGS)
    {
      hide IsValid;
      trigger, toggle := N_CONFIGS, N_CONFIGS;
      var j := 0;
      while j < N_CONFIGS
        invariant 0 <= j <= N_CONFIGS
        invariant trigger == LastMatch(trigConfigs[..], event, j)
        invariant toggle == LastMatch(toggConfigs[..], event, j)
      {
        if trigConfigs[j].id == event { trigger := j; }
        if toggConfigs[j].id == event { toggle := j; }
        j := j + 1;
      }
    }

    /** `ecaHandler`: up to `count` actions are popped from the queue and handled in order. */
    method EcaHandler(count: nat)
      requires Valid()
      modifies this`trigCtrl, this`toggCtrl, this`queue
      ensures Valid()
      ensures var n := Least(count, |old(queue)|);
        Abs() == Run(old(Abs()), Arrivals(old(queue)[..n])) && queue == old(queue)[n..]
    {
      hide Apply, IsValid;
      ghost var s, q := Abs(), queue;
      var i := 0;
      while i < count
        invariant Valid() && 0 <= i <= count
        invariant queue == q[Least(i, |q|)..]
        invariant Abs() == Run(s, Arrivals(q[..Least(i, |q|)]))
      {
        if queue != [] {
          var a := queue[0];
          queue := queue[1..];
          HandleAction(a);
          OneMoreArrival(s, q, i);
          ArriveApplies(Run(s, Arrivals(q[..i])), a);
        }
        i := i + 1;
      }
    }

    // ---------------------------------------------------------------- the loop over all tasks

    /** One iteration of `doActionOperation`: a task, and then the ECA messages.  In between, `arrived` enters the
        queue. */
    method RunOne(id: nat, now: nat, arrived: seq<Action>, count: nat) returns (ghost calls: seq<Call>)
      requires Valid() && IsBurst(id)
      modifies this`trigCtrl, this`toggCtrl, this`cycled, this`sent, this`queue, tasks
      ensures Valid() && Abs() == Run(old(Abs()), calls)
      ensures OpReady(calls) && TasksRun(calls) == [(id, now)]
      ensures ActionsHandled(calls) + queue == old(queue) + arrived
    {
      hide Apply, Run, IsValid, OpReady, TasksRun, ActionsHandled, Arrivals, Abs, Valid, Sized;
      ghost var s := Abs();
      var _ := TriggerIoActions(id, now);
      queue := queue + arrived;
      ghost var all := queue;
      EcaHandler(count);
      ghost var n := Least(count, |all|);
      calls := Turn(id, now, all[..n]);
      OneTurn(s, id, now, all[..n]);
      assert all == all[..n] + all[n..];
    }

    /** `doActionOperation`: every burst has its turn once, in order, each at its own time; no action is lost or
        reordered. */
    method DoActionOperation(clock: seq<nat>, arrived: seq<seq<Action>>, counts: seq<nat>)
      returns (ghost calls: seq<Call>)
      requires Valid() && |clock| == |arrived| == |counts| == N_BURSTS
      modifies this`trigCtrl, this`toggCtrl, this`cycled, this`sent, this`queue, tasks
      ensures Valid() && Abs() == Run(old(Abs()), calls)
      ensures OpReady(calls) && TasksRun(calls) == Turns(clock, N_BURSTS)
      ensures |TasksRun(calls)| == 16 && forall i | 0 <= i < 16 :: TasksRun(calls)[i] == (i + 1, clock[i + 1])
      ensures forall now: nat :: Monotone(calls, now) <==> Ascends(clock, N_BURSTS, now)
      ensures ActionsHandled(calls) + queue == old(queue) + Flat(arrived, N_BURSTS)
    {
      hide Apply, Traced, Abs, Valid, Sized, Monotone, Ascends, Rises;
      ghost var s, q := Abs(), queue;
      calls := [];
      NothingTraced(s, q, clock, arrived);
      var id := 1;
      while id < N_BURSTS
        invariant Valid() && 1 <= id <= N_BURSTS
        invariant Traced(s, q, Abs(), queue, calls, clock, arrived, id)
      {
        ghost var r, rest := Abs(), queue;
        ghost var more := RunOne(id, clock[id], arrived[id], counts[id]);
        OneMoreTurn(s, q, r, rest, Abs(), queue, calls, more, clock, arrived, id);
        calls := calls + more;
        id := id + 1;
      }
      TracedMeans(s, q, Abs(), queue, calls, clock, arrived);
      TurnsAt(clock, N_BURSTS);
      forall now: nat
        ensures Monotone(calls, now) <==> Ascends(clock, N_BURSTS, now)
      {
        MonotoneIsRising(calls, now);
        TurnsRise(clock, N_BURSTS, now);
      }
    }

    // ---------------------------------------------------------------- commands of the host

    /** `CMD_MK_BURST`. */
    method MkBurst(id: nat, ioType: bv8, ioIndex: bv8, trigger: nat, toggle: nat) returns (result: Status)
      requires Valid()
      modifies this`created, tasks, trigConfigs, toggConfigs
      ensures Valid() && Abs() == Apply(old(Abs()), BurstGen.MkBurst(id, ioType, ioIndex, trigger, toggle))
      ensures result == if 0 < id < 17 then Ok else Error
      ensures result == Ok ==> tasks[id] == old(tasks[id]).(
        ioType := ioType, ioIndex := ioIndex, trigger := trigger, toggle := toggle,
        period := 0, cycle := 0, deadline := 0, state := 0, flag := 0x8000)
      ensures forall i | 0 <= i < 17 && (result == Ok ==> i != id) :: tasks[i] == old(tasks[i])
      ensures forall b | IsBurst(b) :: Has(created, b) <==> old(Has(created, b)) || (result == Ok && b == id)
    {
      hide With, Updated, IsValid, Has;
      if 0 < id && id < N_BURSTS {
        ghost var before := Abs();
        tasks[id] := tasks[id].(ioType := ioType, ioIndex := ioIndex, trigger := trigger, toggle := toggle);
        tasks[id] := tasks[id].(period := 0, cycle := 0, deadline := 0, state := 0, flag := CTL_VALID);
        assert tasks[..] == before.tasks[id := tasks[id]];
        forall b | IsBurst(b) { HasWith(created, id, b); }
        created := With(created, id);
        if tasks[id].trigger != 0 { var _ := UpdateConfigs(trigConfigs, tasks[id].trigger, id, true); }
        if tasks[id].toggle != 0 { var _ := UpdateConfigs(toggConfigs, tasks[id].toggle, id, true); }
        result := Ok;
      } else {
        result := Error;
      }
    }

    /** `CMD_RM_BURST`. */
    method RmBurst(id: nat) returns (result: Status)
      requires Valid()
      modifies this`created, tasks, trigConfigs, toggConfigs
      ensures Valid() && Abs() == Apply(old(Abs()), BurstGen.RmBurst(id))
      ensures result == if 0 < id < 17 then Ok else Error
      ensures result == Ok ==> tasks[id] == old(tasks[id]).(
        flag := 0, ioType := 0, ioIndex := 0, trigger := 0, toggle := 0, period := 0, cycle := 0, setup := 0,
        deadline := 0, lasttick := 0, action := 0, failed := 0)
      ensures forall i | 0 <= i < 17 && (result == Ok ==> i != id) :: tasks[i] == old(tasks[i])
      ensures forall b | IsBurst(b) :: Has(created, b) <==> old(Has(created, b)) && !(result == Ok && b == id)
    {
      hide Without, Updated, IsValid, Has;
      if 0 < id && id < N_BURSTS {
        ghost var before := Abs();
        tasks[id] := tasks[id].(flag := CTL_DIS);
        forall b | IsBurst(b) { HasWith(created, id, b); }
        created := Without(created, id);
        if tasks[id].trigger != 0 { var _ := UpdateConfigs(trigConfigs, tasks[id].trigger, id, false); }
        if tasks[id].toggle != 0 { var _ := UpdateConfigs(toggConfigs, tasks[id].toggle, id, false); }
        tasks[id] := tasks[id].(ioType := 0, ioIndex := 0, trigger := 0, toggle := 0, period := 0, cycle := 0,
                                setup := 0);
        tasks[id] := tasks[id].(deadline := 0, lasttick := 0, action := 0, failed := 0);
        assert tasks[..] == before.tasks[id := tasks[id]];
        result := Ok;
      } else {
        result := Error;
      }
    }

    /** `CMD_GET_PARAM`: set up the head of a burst and its period, or add to the period. */
    method GetParam(id: nat, setup: nat, period: nat, add: bool) returns (result: Status)
      requires Valid()
      modifies tasks
      ensures Valid() && Abs() == Apply(old(Abs()), BurstGen.GetParam(id, setup, period, add))
      ensures result == if 0 < id < 17 then Ok else Error
      ensures result == Ok && old(tasks[id].flag) & 0x8000 != 0 ==>
        tasks[id] == old(tasks[id]).(setup := setup, period := if add then old(tasks[id].period) + period else period)
      ensures forall i | 0 <= i < 17 && (i == id ==> result != Ok || old(tasks[i].flag) & 0x8000 == 0) ::
        tasks[i] == old(tasks[i])
    {
      hide IsValid;
      result := Ok;
      ghost var before := Abs();
      if 0 < id && id < N_BURSTS {
        ValidIs(tasks[id].flag);
        if IsValid(tasks[id].flag) {
          if add {
            tasks[id] := tasks[id].(period := tasks[id].period + period);
          } else {
            tasks[id] := tasks[id].(period := period);
          }
          tasks[id] := tasks[id].(setup := setup);
        }
        assert tasks[..] == before.tasks[id := tasks[id]];
      } else {
        result := Error;
      }
    }

    /** `CMD_GET_CYCLE`: set the number of cycles; the burst waits for its next trigger. */
    method GetCycle(id: nat, cycle: int) returns (result: Status)
      requires Valid()
      modifies tasks
      ensures Valid() && Abs() == Apply(old(Abs()), BurstGen.GetCycle(id, cycle))
      ensures result == if 0 < id < 17 then Ok else Error
      ensures result == Ok && old(tasks[id].flag) & 0x8000 != 0 ==>
        tasks[id] == old(tasks[id]).(cycle := cycle, deadline := 0)
      ensures forall i | 0 <= i < 17 && (i == id ==> result != Ok || old(tasks[i].flag) & 0x8000 == 0) ::
        tasks[i] == old(tasks[i])
    {
      hide IsValid;
      result := Ok;
      ghost var before := Abs();
      if 0 < id && id < N_BURSTS {
        ValidIs(tasks[id].flag);
        if IsValid(tasks[id].flag) {
          tasks[id] := tasks[id].(cycle := cycle);
          tasks[id] := tasks[id].(deadline := 0);
        }
        assert tasks[..] == before.tasks[id := tasks[id]];
      } else {
        result := Error;
      }
    }

    /** `CMD_DE_BURST`: the loop over a range of bursts changes the burst of the argument every time,
        and id 0, which means all bursts, is refused because the dummy task is never declared. */
    method EnableBurst(id: nat, on: bool) returns (result: Status)
      requires Valid()
      modifies tasks
      ensures Valid() && Abs() == Apply(old(Abs()), BurstGen.EnableBurst(id, on))
      ensures result == if IsBurst(id) && IsValid(old(tasks[id]).flag) then Ok else Error
      ensures result == Ok ==>
        tasks[id] == old(tasks[id]).(flag := tasks[id].flag) && OnlyEnable(tasks[id].flag, old(tasks[id]).flag, on)
      ensures forall i | 0 <= i < 17 && (i == id ==> result != Ok) :: tasks[i] == old(tasks[i])
    {
      hide IsValid, SetEnable, ClearEnable, OnlyEnable;
      ghost var before := Abs();
      var first, last := -1, -1;
      if id == 0 {
        first, last := 1, N_BURSTS - 1;
      } else if id < N_BURSTS {
        first, last := id, id;
      } else {
        return Error;
      }
      if !IsValid(tasks[id].flag) {
        assert tasks[..] == before.tasks;
        return Error;
      }
      EnabledIs(tasks[id], on);
      ValidIs(tasks[id].flag);
      var i := first;
      while i <= last
        invariant first <= i <= last + 1
        invariant i == first ==> tasks[..] == before.tasks
        invariant i > first ==> tasks[..] == before.tasks[id := Enabled(before.tasks[id], on)]
      {
        if on {
          tasks[id] := tasks[id].(flag := SetEnable(tasks[id].flag));
        } else {
          tasks[id] := tasks[id].(flag := ClearEnable(tasks[id].flag));
        }
        assert tasks[..] == before.tasks[id := tasks[id]];
        i := i + 1;
      }
      result := Ok;
    }

    /** `CMD_LS_BURST` with id 0: gives back the created and the completed bursts and forgets the latter. */
    method ListBursts() returns (all: bv32, done: bv32)
      requires Valid()
      modifies this`cycled
      ensures Valid() && Abs() == Apply(old(Abs()), BurstGen.ListBursts)
      ensures all == created && done == old(cycled) && cycled == 0
    {
      hide IsValid;
      all, done := created, cycled;
      cycled := 0;
    }
  }

  /** The turns of the bursts before `n`. */
  function Turns(clock: seq<nat>, n: nat): seq<(nat, nat)>
    requires n <= |clock|
  {
    if n <= 1 then [] else Turns(clock, n - 1) + [(n - 1, clock[n - 1])]
  }

  function Flat(arrived: seq<seq<Action>>, n: nat): seq<Action>
    requires n <= |arrived|
  {
    if n <= 1 then [] else Flat(arrived, n - 1) + arrived[n - 1]
  }

  /** The times of the turns do not decrease from `now` on. */
  predicate Rises(turns: seq<(nat, nat)>, now: nat)
  {
    turns == [] || (now <= turns[0].1 && Rises(turns[1..], turns[0].1))
  }

  /** The clock of a run does not run backwards exactly if the times at which its tasks run rise. */
  lemma {:induction false} MonotoneIsRising(calls: seq<Call>, now: nat)
    ensures Monotone(calls, now) <==> Rises(TasksRun(calls), now)
  {
    if calls != [] {
      var c, rest := calls[0], TasksRun(calls[1..]);
      MonotoneIsRising(calls[1..], if c.RunTask? then c.now else now);
      if c.RunTask? {
        assert TasksRun(calls) == [(c.id, c.now)] + rest && TasksRun(calls)[1..] == rest;
      } else {
        assert TasksRun(calls) == rest;
      }
    }
  }

  lemma {:induction false} TurnsAt(clock: seq<nat>, n: nat)
    requires 1 <= n <= |clock|
    ensures |Turns(clock, n)| == n - 1
    ensures forall i | 0 <= i < n - 1 :: Turns(clock, n)[i] == (i + 1, clock[i + 1])
  {
    if n > 1 { TurnsAt(clock, n - 1); }
  }

  lemma {:induction false} RisesLast(turns: seq<(nat, nat)>, last: (nat, nat), now: nat)
    ensures Rises(turns + [last], now)
       <==> Rises(turns, now) && (if turns == [] then now else turns[|turns| - 1].1) <= last.1
  {
    var all := turns + [last];
    if turns == [] {
      assert all == [last] && all[1..] == [];
    } else {
      assert all[0] == turns[0] && all[1..] == turns[1..] + [last];
      RisesLast(turns[1..], last, turns[0].1);
    }
  }

  /** The first `n` readings of the clock, one for each burst, do not decrease from `now` on. */
  predicate Ascends(clock: seq<nat>, n: nat, now: nat)
    requires n <= |clock|
  {
    n <= 1 || (Ascends(clock, n - 1, now) && (if n == 2 then now else clock[n - 2]) <= clock[n - 1])
  }

  lemma {:induction false} TurnsRise(clock: seq<nat>, n: nat, now: nat)
    requires n <= |clock|
    ensures Rises(Turns(clock, n), now) <==> Ascends(clock, n, now)
  {
    if n > 1 {
      TurnsRise(clock, n - 1, now);
      RisesLast(Turns(clock, n - 1), (n - 1, clock[n - 1]), now);
      if n > 2 {
        var turns := Turns(clock, n - 1);
        assert turns == Turns(clock, n - 2) + [(n - 2, clock[n - 2])];
        assert turns[|turns| - 1] == (n - 2, clock[n - 2]);
      }
    }
  }

  lemma ClearedIsInv(s: State)
    requires Sized(s) && s.created == 0
    requires forall i | 0 <= i < N_BURSTS ::
               s.tasks[i].flag == CTL_DIS && s.tasks[i].trigger == 0 && s.tasks[i].toggle == 0
    requires forall i | 0 <= i < N_CONFIGS :: s.trig[i] == s.togg[i] == Config(0, 0)
    ensures Inv(s)
  {
    hide Has, IsValid, Small;
    FlagsAre();
    SmallZero();
    forall b | IsBurst(b) ensures !Has(0, b) { HasNone(b); }
  }

  lemma SmallZero()
    ensures Small(0)
  {
  }

  lemma OneMoreArrival(s: State, q: seq<Action>, i: nat)
    requires Sized(s) && i < |q|
    ensures Run(s, Arrivals(q[..i + 1])) == Apply(Run(s, Arrivals(q[..i])), Arrive(q[i]))
  {
    hide Apply;
    assert Arrivals(q[..i + 1]) == Arrivals(q[..i]) + [Arrive(q[i])];
    RunAppend(s, Arrivals(q[..i]), [Arrive(q[i])]);
  }

  lemma ArriveApplies(s: State, a: Action)
    requires Sized(s)
    ensures Apply(s, Arrive(a)) == AfterAction(s, a)
  {
    hide AfterAction;
  }

  lemma TakenTask(s: State, id: nat, v: View)
    requires Sized(s) && IsBurst(id)
    ensures Put(s, id, v).tasks[id] == v.task
  {
  }

  /** A pass is its two halves, one after the other. */
  lemma PassIsBothHalves(s: State, id: nat, now: nat)
    requires Sized(s) && IsBurst(id)
    ensures var w := Consume(ViewOf(s, id));
      var r := Put(s, id, w);
      AfterTask(s, id, now) ==
        if Verdict(w.task, now) == Ok && Due(w.task, now) then
          r.(tasks := r.tasks[id := Fired(w.task, now)],
             cycled := if w.task.cycle == 1 then With(r.cycled, id) else r.cycled,
             sent := r.sent + [Message(id, w.task.deadline, now)])
        else r.(tasks := r.tasks[id := Stamped(w.task, now)])
  {
    hide Has, Consume, Verdict, Due, Fired, Stamped, With, Without;
    var v := ViewOf(s, id);
    var w := Consume(v);
    CycledKept(v);
    PassedBits(v, now);
    PutTwice(s, id, w, Passed(v, now));
    PutBits(s, id, w, Passed(v, now));
  }

  lemma CycledKept(v: View)
    ensures v.cycled ==> Consume(v).cycled
  {
  }

  lemma PassedBits(v: View, now: nat)
    ensures Passed(v, now).trig == Consume(v).trig && Passed(v, now).togg == Consume(v).togg
    ensures Consume(v).cycled ==> Passed(v, now).cycled
  {
    hide Consume, Injects, Fired, Stamped;
  }

  /** The second put only writes the task and, if the burst has ended, its cycled bit. */
  lemma PutBits(s: State, id: nat, v: View, w: View)
    requires Sized(s) && IsBurst(id) && v.trig == w.trig && v.togg == w.togg && (v.cycled ==> w.cycled)
    ensures var r := Put(s, id, v);
      Put(r, id, w) == r.(tasks := r.tasks[id := w.task], cycled := if w.cycled then With(r.cycled, id) else r.cycled)
  {
    hide Has, With, Without;
    var r := Put(s, id, v);
    HasSetTo(s.trigCtrl.bursts, id, v.trig, id);
    HasSetTo(s.toggCtrl.bursts, id, v.togg, id);
    HasSetTo(s.cycled, id, v.cycled, id);
    SetSame(r.trigCtrl.bursts, id);
    SetSame(r.toggCtrl.bursts, id);
    SetSame(r.cycled, id);
  }

  /** From state `s` and queue `q` the calls have led to `r` and `rest`, with the turns of the bursts before `id`. */
  ghost predicate Traced(s: State, q: seq<Action>, r: State, rest: seq<Action>, calls: seq<Call>,
                         clock: seq<nat>, arrived: seq<seq<Action>>, id: nat)
  {
    && Sized(s) && id <= |clock| && id <= |arrived|
    && r == Run(s, calls) && OpReady(calls) && TasksRun(calls) == Turns(clock, id)
    && ActionsHandled(calls) + rest == q + Flat(arrived, id)
  }

  lemma NothingTraced(s: State, q: seq<Action>, clock: seq<nat>, arrived: seq<seq<Action>>)
    requires Sized(s) && |clock| >= 1 && |arrived| >= 1
    ensures Traced(s, q, s, q, [], clock, arrived, 1)
  {
  }

  lemma TracedMeans(s: State, q: seq<Action>, r: State, rest: seq<Action>, calls: seq<Call>,
                    clock: seq<nat>, arrived: seq<seq<Action>>)
    requires |clock| == |arrived| == N_BURSTS && Traced(s, q, r, rest, calls, clock, arrived, N_BURSTS)
    ensures Sized(s) && r == Run(s, calls) && OpReady(calls) && TasksRun(calls) == Turns(clock, N_BURSTS)
    ensures ActionsHandled(calls) + rest == q + Flat(arrived, N_BURSTS)
  {
    hide Sized, Run, OpReady, TasksRun, ActionsHandled, Turns, Flat;
  }

  lemma OneMoreTurn(s: State, q: seq<Action>, r: State, rest: seq<Action>, r1: State, rest1: seq<Action>,
                    calls: seq<Call>, more: seq<Call>, clock: seq<nat>, arrived: seq<seq<Action>>, id: nat)
    requires 1 <= id < |clock| == |arrived| && Sized(r)
    requires Traced(s, q, r, rest, calls, clock, arrived, id)
    requires r1 == Run(r, more) && OpReady(more) && TasksRun(more) == [(id, clock[id])]
    requires ActionsHandled(more) + rest1 == rest + arrived[id]
    ensures Traced(s, q, r1, rest1, calls + more, clock, arrived, id + 1)
  {
    hide Run, OpReady, TasksRun, ActionsHandled;
    RunAppend(s, calls, more);
    TasksRunAppend(calls, more);
    ActionsAppend(calls, more);
    OpReadyAppend(calls, more);
    NothingLost(ActionsHandled(calls), rest, q + Flat(arrived, id), ActionsHandled(more), rest1, arrived[id]);
    assert (q + Flat(arrived, id)) + arrived[id] == q + Flat(arrived, id + 1);
  }
}
