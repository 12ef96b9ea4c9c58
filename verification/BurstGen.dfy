/** The burst generator: the tables, the flags and the tasks together, and the handlers that change them. */
module BurstGen {
  import opened BurstMasks
  import opened BurstTables
  import opened BurstTasks

  const MY_ACT_TAG: bv32 := 0xb2b2_b2b2

  /** Bursts that wait to be triggered or toggled, and the deadline that they share. */
  datatype Control = Control(deadline: nat, bursts: bv32)

  /** A timing message that was injected, and when. */
  datatype Message = Message(burst: nat, deadline: nat, at: nat)

  /** An action that the ECA has put into the queue of the embedded CPU. */
  datatype Action = Action(tag: bv32, event: nat, deadline: nat, param: nat)

  datatype State = State(tasks: seq<Task>, trig: seq<Config>, togg: seq<Config>, trigCtrl: Control, toggCtrl: Control,
                         created: bv32, cycled: bv32, sent: seq<Message>)

  predicate Sized(s: State)
  {
    |s.tasks| == N_BURSTS && |s.trig| == N_CONFIGS && |s.togg| == N_CONFIGS
  }

  /** What happens to the generator. */
  datatype Call =
    | RunTask(id: nat, now: nat)
    | Arrive(action: Action)
    | MkBurst(id: nat, ioType: bv8, ioIndex: bv8, trigger: nat, toggle: nat)
    | RmBurst(id: nat)
    | GetParam(id: nat, setup: nat, period: nat, add: bool)
    | GetCycle(id: nat, cycle: int)
    | EnableBurst(id: nat, on: bool)
    | ListBursts

  /** What the state says about one burst. */
  function ViewOf(s: State, id: nat): View
    requires Sized(s) && IsBurst(id)
  {
    View(s.tasks[id], Has(s.trigCtrl.bursts, id), Has(s.toggCtrl.bursts, id), s.trigCtrl.deadline, s.toggCtrl.deadline,
         Has(s.cycled, id))
  }

  /** The state with what it says about one burst replaced; the shared deadlines stay. */
  function Put(s: State, id: nat, v: View): (r: State)
    requires Sized(s) && IsBurst(id)
    ensures Sized(r)
  {
    s.(tasks := s.tasks[id := v.task],
       trigCtrl := s.trigCtrl.(bursts := SetTo(s.trigCtrl.bursts, id, v.trig)),
       toggCtrl := s.toggCtrl.(bursts := SetTo(s.toggCtrl.bursts, id, v.togg)),
       cycled := SetTo(s.cycled, id, v.cycled))
  }

  function PutTask(s: State, id: nat, t: Task): (r: State)
    requires Sized(s) && IsBurst(id)
    ensures Sized(r)
  {
    s.(tasks := s.tasks[id := t])
  }

  function Sent(v: View, id: nat, now: nat): seq<Message>
  {
    if Injects(v, now) then [Message(id, Consume(v).task.deadline, now)] else []
  }

  function AfterTask(s: State, id: nat, now: nat): (r: State)
    requires Sized(s) && IsBurst(id)
    ensures Sized(r)
  {
    var v := ViewOf(s, id);
    Put(s, id, Passed(v, now)).(sent := s.sent + Sent(v, id, now))
  }

  /** The bursts that an event selects, by the slot that the search finds. */
  function Selected(t: seq<Config>, event: nat): bv32
    requires LastMatch(t, event, |t|) < |t|
  {
    t[LastMatch(t, event, |t|)].bursts
  }

  predicate Known(t: seq<Config>, event: nat)
  {
    LastMatch(t, event, |t|) < |t|
  }

  function AfterAction(s: State, a: Action): (r: State)
    requires Sized(s)
    ensures Sized(r)
  {
    if a.tag != MY_ACT_TAG then s
    else if Known(s.trig, a.event) then
      s.(trigCtrl := Control(a.deadline + a.param, Or(s.trigCtrl.bursts, Selected(s.trig, a.event))))
    else if Known(s.togg, a.event) then
      s.(toggCtrl := Control(a.deadline + a.param, Or(s.toggCtrl.bursts, Selected(s.togg, a.event))))
    else s
  }

  function AfterMk(s: State, id: nat, ioType: bv8, ioIndex: bv8, trigger: nat, toggle: nat): (r: State)
    requires Sized(s) && IsBurst(id)
    ensures Sized(r)
  {
    s.(tasks := s.tasks[id := DeclaredTask(s.tasks[id], ioType, ioIndex, trigger, toggle)],
       created := With(s.created, id), trig := Declared(s.trig, trigger, id), togg := Declared(s.togg, toggle, id))
  }

  function AfterRm(s: State, id: nat): (r: State)
    requires Sized(s) && IsBurst(id)
    ensures Sized(r)
  {
    s.(tasks := s.tasks[id := RemovedTask(s.tasks[id])], created := Without(s.created, id),
       trig := Withdrawn(s.trig, s.tasks[id].trigger, id), togg := Withdrawn(s.togg, s.tasks[id].toggle, id))
  }

  function IdOf(c: Call): nat
  {
    if c.Arrive? || c.ListBursts? then 1 else c.id
  }

  /** The state after one call; calls with an id that no burst has change nothing. */
  function Apply(s: State, c: Call): (r: State)
    requires Sized(s)
    ensures Sized(r)
  {
    if !IsBurst(IdOf(c)) then s
    else match c
      case RunTask(id, now) => AfterTask(s, id, now)
      case Arrive(a) => AfterAction(s, a)
      case MkBurst(id, ioType, ioIndex, trigger, toggle) => AfterMk(s, id, ioType, ioIndex, trigger, toggle)
      case RmBurst(id) => AfterRm(s, id)
      case GetParam(id, setup, period, add) => PutTask(s, id, Params(s.tasks[id], setup, period, add))
      case GetCycle(id, cycle) => PutTask(s, id, Cycles(s.tasks[id], cycle))
      case EnableBurst(id, on) => PutTask(s, id, Enabled(s.tasks[id], on))
      case ListBursts => s.(cycled := 0)
  }

  function Run(s: State, calls: seq<Call>): (r: State)
    requires Sized(s)
    ensures Sized(r)
    decreases |calls|
  {
    if calls == [] then s else Run(Apply(s, calls[0]), calls[1..])
  }

  lemma {:induction false} RunAppend(s: State, a: seq<Call>, b: seq<Call>)
    requires Sized(s)
    ensures Run(s, a + b) == Run(Run(s, a), b)
    decreases |a|
  {
    if a == [] {
      assert a + b == b;
    } else {
      assert (a + b)[1..] == a[1..] + b;
      RunAppend(Apply(s, a[0]), a[1..], b);
    }
  }

  // ---------------------------------------------------------------- the tables over every run

  function TriggersOf(tasks: seq<Task>): (f: seq<nat>)
    ensures |f| == |tasks|
  {
    seq(|tasks|, i requires 0 <= i < |tasks| => tasks[i].trigger)
  }

  function TogglesOf(tasks: seq<Task>): (f: seq<nat>)
    ensures |f| == |tasks|
  {
    seq(|tasks|, i requires 0 <= i < |tasks| => tasks[i].toggle)
  }

  /** The tables are the inverse of what the tasks declare, and the created bursts are the valid ones. */
  ghost predicate Inv(s: State)
  {
    && Sized(s)
    && WellFormed(s.trig) && Inverse(s.trig, TriggersOf(s.tasks))
    && WellFormed(s.togg) && Inverse(s.togg, TogglesOf(s.tasks))
    && CreatedOk(s.tasks, s.created)
  }

  /** A burst is created exactly if its task is valid; one that is not declares no events. */
  ghost predicate CreatedOk(tasks: seq<Task>, created: bv32)
    requires |tasks| == N_BURSTS
  {
    forall b | IsBurst(b) ::
      && (Has(created, b) <==> IsValid(tasks[b].flag))
      && (!IsValid(tasks[b].flag) ==> tasks[b].trigger == 0 && tasks[b].toggle == 0)
  }

  /** The declaration may replace what the burst declares now: nothing, or the same event. */
  predicate Replaces(s: State, c: Call)
    requires Sized(s)
  {
    c.MkBurst? && IsBurst(c.id) ==>
      && (s.tasks[c.id].trigger == 0 || s.tasks[c.id].trigger == c.trigger)
      && (s.tasks[c.id].toggle == 0 || s.tasks[c.id].toggle == c.toggle)
  }

  /** A task that keeps its flag and its events keeps the invariant. */
  lemma TaskKeepsInv(s: State, r: State, id: nat, t: Task)
    requires Inv(s) && IsBurst(id) && r == s.(tasks := s.tasks[id := t], trigCtrl := r.trigCtrl, toggCtrl := r.toggCtrl,
                                               cycled := r.cycled, sent := r.sent)
    requires t.trigger == s.tasks[id].trigger && t.toggle == s.tasks[id].toggle
    requires IsValid(t.flag) == IsValid(s.tasks[id].flag)
    ensures Inv(r)
  {
    hide Has, IsValid, WellFormed, Inverse;
    assert TriggersOf(r.tasks) == TriggersOf(s.tasks);
    assert TogglesOf(r.tasks) == TogglesOf(s.tasks);
  }

  lemma PassKeepsEvents(v: View, now: nat)
    ensures Passed(v, now).task.trigger == v.task.trigger && Passed(v, now).task.toggle == v.task.toggle
    ensures Passed(v, now).task.flag == v.task.flag
    ensures Passed(v, now).trigDeadline == v.trigDeadline && Passed(v, now).toggDeadline == v.toggDeadline
  {
    hide Consume, Verdict, Due;
    ConsumeKeepsEvents(v);
  }

  lemma ConsumeKeepsEvents(v: View)
    ensures Consume(v).task.trigger == v.task.trigger && Consume(v).task.toggle == v.task.toggle
    ensures Consume(v).task.flag == v.task.flag
    ensures Consume(v).trigDeadline == v.trigDeadline && Consume(v).toggDeadline == v.toggDeadline
  {
    hide Quotient;
  }

  lemma SettingsKeepEvents(t: Task, setup: nat, period: nat, add: bool, n: int, on: bool)
    ensures forall u | u in {Params(t, setup, period, add), Cycles(t, n), Enabled(t, on)} ::
      u.trigger == t.trigger && u.toggle == t.toggle && IsValid(u.flag) == IsValid(t.flag)
  {
    hide IsValid, SetEnable, ClearEnable;
    EnableKeepsValid(t.flag);
  }

  lemma FlagsAre()
    ensures IsValid(CTL_VALID) && !IsValid(CTL_DIS)
  {
  }

  /** A declaration keeps the invariant exactly if it replaces nothing else; so every fresh id does. */
  lemma MkKeepsInv(s: State, id: nat, ioType: bv8, ioIndex: bv8, trigger: nat, toggle: nat)
    requires Inv(s) && IsBurst(id)
    ensures Inv(AfterMk(s, id, ioType, ioIndex, trigger, toggle))
       <==> Replaces(s, MkBurst(id, ioType, ioIndex, trigger, toggle))
    ensures !Has(s.created, id) ==> Replaces(s, MkBurst(id, ioType, ioIndex, trigger, toggle))
  {
    hide Has, IsValid, WellFormed, Inverse, With, Without, Declared;
    var r := AfterMk(s, id, ioType, ioIndex, trigger, toggle);
    DeclareKeepsInverse(s.trig, TriggersOf(s.tasks), trigger, id);
    DeclareKeepsInverse(s.togg, TogglesOf(s.tasks), toggle, id);
    assert TriggersOf(r.tasks) == TriggersOf(s.tasks)[id := trigger];
    assert TogglesOf(r.tasks) == TogglesOf(s.tasks)[id := toggle];
    FlagsAre();
    forall b | IsBurst(b)
      ensures Has(r.created, b) <==> IsValid(r.tasks[b].flag)
    {
      HasWith(s.created, id, b);
    }
  }

  lemma RmKeepsInv(s: State, id: nat)
    requires Inv(s) && IsBurst(id)
    ensures Inv(AfterRm(s, id))
  {
    hide Has, IsValid, WellFormed, Inverse, With, Without, Withdrawn;
    var r := AfterRm(s, id);
    WithdrawKeepsInverse(s.trig, TriggersOf(s.tasks), id);
    WithdrawKeepsInverse(s.togg, TogglesOf(s.tasks), id);
    assert TriggersOf(r.tasks) == TriggersOf(s.tasks)[id := 0];
    assert TogglesOf(r.tasks) == TogglesOf(s.tasks)[id := 0];
    FlagsAre();
    forall b | IsBurst(b)
      ensures Has(r.created, b) <==> IsValid(r.tasks[b].flag)
    {
      HasWith(s.created, id, b);
    }
  }

  lemma TaskCallKeepsInv(s: State, id: nat, now: nat)
    requires Inv(s) && IsBurst(id)
    ensures Inv(AfterTask(s, id, now))
  {
    hide WellFormed, Inverse, CreatedOk, Passed, IsValid, Has, SetTo, Sent;
    PassKeepsEvents(ViewOf(s, id), now);
    TaskKeepsInv(s, AfterTask(s, id, now), id, Passed(ViewOf(s, id), now).task);
  }

  lemma ActionKeepsInv(s: State, a: Action)
    requires Inv(s)
    ensures Inv(AfterAction(s, a))
  {
    hide WellFormed, Inverse, CreatedOk, Or;
  }

  lemma SettingKeepsInv(s: State, id: nat, t: Task)
    requires Inv(s) && IsBurst(id)
    requires t.trigger == s.tasks[id].trigger && t.toggle == s.tasks[id].toggle
    requires IsValid(t.flag) == IsValid(s.tasks[id].flag)
    ensures Inv(PutTask(s, id, t))
  {
    hide WellFormed, Inverse, CreatedOk, IsValid;
    TaskKeepsInv(s, PutTask(s, id, t), id, t);
  }

  lemma ListKeepsInv(s: State)
    requires Inv(s)
    ensures Inv(s.(cycled := 0))
  {
    hide WellFormed, Inverse, CreatedOk;
  }

  /** Every call keeps the invariant, except exactly a declaration that replaces another event. */
  lemma CallKeepsInv(s: State, c: Call)
    requires Inv(s)
    ensures Inv(Apply(s, c)) <==> Replaces(s, c)
  {
    hide WellFormed, Inverse, CreatedOk, AfterTask, AfterAction, AfterMk, AfterRm, PutTask;
    hide Params, Cycles, Enabled, IsValid, TriggersOf, TogglesOf;
    if IsBurst(IdOf(c)) {
      match c {
        case RunTask(id, now) =>
          TaskCallKeepsInv(s, id, now);
        case Arrive(a) =>
          ActionKeepsInv(s, a);
        case MkBurst(id, ioType, ioIndex, trigger, toggle) =>
          MkKeepsInv(s, id, ioType, ioIndex, trigger, toggle);
        case RmBurst(id) =>
          RmKeepsInv(s, id);
        case GetParam(id, setup, period, add) =>
          SettingsKeepEvents(s.tasks[id], setup, period, add, 0, true);
          SettingKeepsInv(s, id, Params(s.tasks[id], setup, period, add));
        case GetCycle(id, n) =>
          SettingsKeepEvents(s.tasks[id], 0, 0, true, n, true);
          SettingKeepsInv(s, id, Cycles(s.tasks[id], n));
        case EnableBurst(id, on) =>
          SettingsKeepEvents(s.tasks[id], 0, 0, true, 0, on);
          SettingKeepsInv(s, id, Enabled(s.tasks[id], on));
        case ListBursts =>
          ListKeepsInv(s);
      }
    }
  }

  /** Every declaration of the run replaces nothing else when it is made. */
  predicate AllReplace(s: State, calls: seq<Call>)
    requires Sized(s)
    decreases |calls|
  {
    calls == [] || (Replaces(s, calls[0]) && AllReplace(Apply(s, calls[0]), calls[1..]))
  }

  lemma {:induction false} RunKeepsInv(s: State, calls: seq<Call>)
    requires Inv(s) && AllReplace(s, calls)
    ensures Inv(Run(s, calls))
    decreases |calls|
  {
    hide Inv, Apply, Replaces;
    if calls != [] {
      InvIsSized(s);
      CallKeepsInv(s, calls[0]);
      RunKeepsInv(Apply(s, calls[0]), calls[1..]);
    }
  }

  lemma InvIsSized(s: State)
    requires Inv(s)
    ensures Sized(s)
  {
  }

  /** In a state with the invariant a tagged event other than 0 triggers exactly the bursts that declare it as trigger;
      only if there are none, it toggles exactly those that declare it as toggle. */
  lemma EventReaches(s: State, a: Action, b: nat)
    requires Inv(s) && a.tag == 0xb2b2_b2b2 && a.event != 0 && IsBurst(b)
    ensures var r := AfterAction(s, a);
      var triggers, toggles := TriggersOf(s.tasks), TogglesOf(s.tasks);
      if a.event in triggers[1..] then
        && (Has(r.trigCtrl.bursts, b) <==> Has(s.trigCtrl.bursts, b) || triggers[b] == a.event)
        && r.trigCtrl.deadline == a.deadline + a.param && r.toggCtrl == s.toggCtrl
      else if a.event in toggles[1..] then
        && (Has(r.toggCtrl.bursts, b) <==> Has(s.toggCtrl.bursts, b) || toggles[b] == a.event)
        && r.toggCtrl.deadline == a.deadline + a.param && r.trigCtrl == s.trigCtrl
      else r == s
  {
    hide Has, IsValid, WellFormed, Inverse, Or, CreatedOk;
    EventFound(s.trig, TriggersOf(s.tasks), a.event, b);
    EventFound(s.togg, TogglesOf(s.tasks), a.event, b);
    if Known(s.trig, a.event) { HasJoin(s.trigCtrl.bursts, Selected(s.trig, a.event), b); }
    if Known(s.togg, a.event) { HasJoin(s.toggCtrl.bursts, Selected(s.togg, a.event), b); }
  }

  lemma EventFound(t: seq<Config>, f: seq<nat>, e: nat, b: nat)
    requires WellFormed(t) && |f| == N_BURSTS && Inverse(t, f) && e != 0 && IsBurst(b)
    ensures Known(t, e) <==> e in f[1..]
    ensures Known(t, e) ==> (Has(Selected(t, e), b) <==> f[b] == e)
  {
    hide Has, WellFormed, Inverse;
    EventSelects(t, f, e);
    if Known(t, e) {
      var x :| IsBurst(x) && f[x] == e;
      assert f[1..][x - 1] == e;
    }
    if e in f[1..] {
      var i :| 0 <= i < |f[1..]| && f[1..][i] == e;
      assert f[i + 1] == e && IsBurst(i + 1);
    }
  }

  /** Event 0 reaches no burst, but it replaces the deadline of the bursts that wait for their trigger. */
  lemma EventZeroReaches(s: State, a: Action)
    requires Inv(s) && a.tag == 0xb2b2_b2b2 && a.event == 0
    ensures AfterAction(s, a).trigCtrl.deadline == a.deadline + a.param
    ensures forall b | IsBurst(b) :: Has(AfterAction(s, a).trigCtrl.bursts, b) <==> Has(s.trigCtrl.bursts, b)
  {
    hide Has, IsValid, WellFormed, Inverse, Or, CreatedOk;
    EventZero(s.trig, TriggersOf(s.tasks));
    forall b | IsBurst(b)
      ensures Has(AfterAction(s, a).trigCtrl.bursts, b) <==> Has(s.trigCtrl.bursts, b)
    {
      HasJoin(s.trigCtrl.bursts, 0, b);
      HasNone(b);
    }
  }

  /** An action with a foreign tag changes nothing. */
  lemma ForeignActionIgnored(s: State, a: Action)
    requires Sized(s) && a.tag != 0xb2b2_b2b2
    ensures AfterAction(s, a) == s
  {
  }

  // ---------------------------------------------------------------- every burst on its own

  /** What a call means to burst `b`. */
  function LocalOp(s: State, c: Call, b: nat): Op
    requires Sized(s) && IsBurst(b)
  {
    match c
    case Arrive(a) =>
      if a.tag != MY_ACT_TAG then Other
      else if Known(s.trig, a.event) then Trigger(Has(Selected(s.trig, a.event), b), a.deadline + a.param)
      else if Known(s.togg, a.event) then Toggle(Has(Selected(s.togg, a.event), b), a.deadline + a.param)
      else Other
    case RunTask(id, now) => if id == b then Pass(now) else Other
    case MkBurst(id, ioType, ioIndex, trigger, toggle) =>
      if id == b then Declare(ioType, ioIndex, trigger, toggle) else Other
    case RmBurst(id) => if id == b then Remove else Other
    case GetParam(id, setup, period, add) => if id == b then SetParam(setup, period, add) else Other
    case GetCycle(id, n) => if id == b then SetCycle(n) else Other
    case EnableBurst(id, on) => if id == b then Enable(on) else Other
    case ListBursts => ReadCycled
  }

  function LocalOps(s: State, calls: seq<Call>, b: nat): seq<Op>
    requires Sized(s) && IsBurst(b)
    decreases |calls|
  {
    if calls == [] then [] else [LocalOp(s, calls[0], b)] + LocalOps(Apply(s, calls[0]), calls[1..], b)
  }

  lemma ViewOfPut(s: State, id: nat, v: View, b: nat)
    requires Sized(s) && IsBurst(id) && IsBurst(b)
    requires v.trigDeadline == s.trigCtrl.deadline && v.toggDeadline == s.toggCtrl.deadline
    ensures ViewOf(Put(s, id, v), b) == if b == id then v else ViewOf(s, b)
  {
    hide Has, SetTo;
    HasSetTo(s.trigCtrl.bursts, id, v.trig, b);
    HasSetTo(s.toggCtrl.bursts, id, v.togg, b);
    HasSetTo(s.cycled, id, v.cycled, b);
  }

  lemma ViewOfTask(s: State, id: nat, now: nat, b: nat)
    requires Sized(s) && IsBurst(id) && IsBurst(b)
    ensures ViewOf(AfterTask(s, id, now), b) == if b == id then Passed(ViewOf(s, b), now) else ViewOf(s, b)
  {
    hide Has, Passed, Put, Sent;
    var v := Passed(ViewOf(s, id), now);
    PassKeepsEvents(ViewOf(s, id), now);
    ViewOfPut(s, id, v, b);
  }

  /** A pass uses up what it takes over: the trigger of its burst, or else the toggle; of the other bursts nothing
      changes. */
  lemma PassTakesOver(s: State, id: nat, now: nat)
    requires Sized(s) && IsBurst(id)
    ensures var r := AfterTask(s, id, now);
      && !Has(r.trigCtrl.bursts, id)
      && (Has(r.toggCtrl.bursts, id) <==> Has(s.trigCtrl.bursts, id) && Has(s.toggCtrl.bursts, id))
      && r.trigCtrl.deadline == s.trigCtrl.deadline && r.toggCtrl.deadline == s.toggCtrl.deadline
    ensures forall b | IsBurst(b) && b != id :: ViewOf(AfterTask(s, id, now), b) == ViewOf(s, b)
  {
    hide Has, AfterTask, Passed;
    var v := ViewOf(s, id);
    if v.trig {
      TriggerTaken(v, now);
    } else if v.togg {
      ToggleGone(v, now);
    } else {
      PlainPass(v, now);
    }
    ViewOfTask(s, id, now, id);
    forall b | IsBurst(b) && b != id ensures ViewOf(AfterTask(s, id, now), b) == ViewOf(s, b) {
      ViewOfTask(s, id, now, b);
    }
  }

  lemma ToggleGone(v: View, now: nat)
    requires !v.trig && v.togg
    ensures var w := Passed(v, now);
      !w.trig && !w.togg && w.trigDeadline == v.trigDeadline && w.toggDeadline == v.toggDeadline
  {
    hide Verdict, Due, Fired, Stamped, Quotient;
  }

  /** A trigger that is taken over in time sends its message at once. */
  lemma TriggerSends(s: State, id: nat, now: nat)
    requires Sized(s) && IsBurst(id) && Has(s.trigCtrl.bursts, id)
    ensures var d := s.trigCtrl.deadline + s.tasks[id].setup;
      AfterTask(s, id, now).sent
      == s.sent + if s.tasks[id].cycle != 0 && now < d then [Message(id, d, now)] else []
  {
    hide Has, Put, Passed, Injects;
    TriggerTaken(ViewOf(s, id), now);
  }

  lemma ViewOfAction(s: State, a: Action, b: nat)
    requires Sized(s) && IsBurst(b)
    ensures ViewOf(AfterAction(s, a), b) == Step(ViewOf(s, b), LocalOp(s, Arrive(a), b))
  {
    hide Has, Or, LastMatch;
    if Known(s.trig, a.event) { HasJoin(s.trigCtrl.bursts, Selected(s.trig, a.event), b); }
    if Known(s.togg, a.event) { HasJoin(s.toggCtrl.bursts, Selected(s.togg, a.event), b); }
  }

  lemma ViewOfNewTask(s: State, r: State, id: nat, t: Task, b: nat)
    requires Sized(s) && IsBurst(id) && IsBurst(b)
    requires r == s.(tasks := s.tasks[id := t], trig := r.trig, togg := r.togg, created := r.created) && Sized(r)
    ensures ViewOf(r, b) == if b == id then ViewOf(s, b).(task := t) else ViewOf(s, b)
    ensures ViewOf(s, b).task == s.tasks[b]
  {
    hide Has;
  }

  lemma ViewOfCommand(s: State, c: Call, b: nat)
    requires Sized(s) && IsBurst(b) && IsBurst(IdOf(c)) && !c.RunTask? && !c.Arrive? && !c.ListBursts?
    ensures ViewOf(Apply(s, c), b) == Step(ViewOf(s, b), LocalOp(s, c, b))
  {
    hide Has, ViewOf, Passed, Params, Cycles, Enabled, DeclaredTask, RemovedTask, Declared, Withdrawn, Known;
    hide With, Without;
    var r := Apply(s, c);
    ViewOfNewTask(s, r, c.id, r.tasks[c.id], b);
  }

  lemma ViewOfListed(s: State, b: nat)
    requires Sized(s) && IsBurst(b)
    ensures ViewOf(s.(cycled := 0), b) == ViewOf(s, b).(cycled := false)
  {
    hide Has;
    HasNone(b);
  }

  /** A call changes the view of a burst as its local operation does. */
  lemma ViewStep(s: State, c: Call, b: nat)
    requires Sized(s) && IsBurst(b)
    ensures ViewOf(Apply(s, c), b) == Step(ViewOf(s, b), LocalOp(s, c, b))
  {
    hide Has, ViewOf, AfterTask, AfterAction, Passed, Known;
    if c.RunTask? {
      if IsBurst(c.id) { ViewOfTask(s, c.id, c.now, b); }
    } else if c.Arrive? {
      ViewOfAction(s, c.action, b);
    } else if c.ListBursts? {
      ViewOfListed(s, b);
    } else if IsBurst(c.id) {
      ViewOfCommand(s, c, b);
    }
  }

  /** So the part of a run that concerns one burst is a run of that burst. */
  lemma {:induction false} ViewRun(s: State, calls: seq<Call>, b: nat)
    requires Sized(s) && IsBurst(b)
    ensures ViewOf(Run(s, calls), b) == After(ViewOf(s, b), LocalOps(s, calls, b))
    decreases |calls|
  {
    hide ViewOf, Apply, LocalOp, Step;
    if calls != [] {
      ViewStep(s, calls[0], b);
      ViewRun(Apply(s, calls[0]), calls[1..], b);
      assert LocalOps(s, calls, b)[1..] == LocalOps(Apply(s, calls[0]), calls[1..], b);
    }
  }

  /** The messages of one burst, as marks. */
  function SentOf(sent: seq<Message>, b: nat): seq<(nat, nat)>
  {
    if sent == [] then []
    else (if sent[0].burst == b then [(sent[0].deadline, sent[0].at)] else []) + SentOf(sent[1..], b)
  }

  function ShotsOf(log: seq<Mark>): seq<(nat, nat)>
  {
    if log == [] then [] else (if log[0].Shot? then [(log[0].deadline, log[0].now)] else []) + ShotsOf(log[1..])
  }

  lemma {:induction false} SentAppend(a: seq<Message>, c: seq<Message>, b: nat)
    ensures SentOf(a + c, b) == SentOf(a, b) + SentOf(c, b)
  {
    if a == [] {
      assert a + c == c;
    } else {
      assert (a + c)[0] == a[0] && (a + c)[1..] == a[1..] + c;
      SentAppend(a[1..], c, b);
      var first := if a[0].burst == b then [(a[0].deadline, a[0].at)] else [];
      assert SentOf(a + c, b) == first + (SentOf(a[1..], b) + SentOf(c, b));
    }
  }

  lemma {:induction false} ShotsOfAppend(a: seq<Mark>, c: seq<Mark>)
    ensures ShotsOf(a + c) == ShotsOf(a) + ShotsOf(c)
  {
    if a == [] {
      assert a + c == c;
    } else {
      assert (a + c)[1..] == a[1..] + c;
      ShotsOfAppend(a[1..], c);
    }
  }

  lemma SentByTask(s: State, id: nat, now: nat, b: nat)
    requires Sized(s) && IsBurst(b) && IsBurst(id)
    ensures SentOf(AfterTask(s, id, now).sent, b)
         == SentOf(s.sent, b) + if id == b then ShotsOf(Marks(ViewOf(s, b), Pass(now))) else []
  {
    hide Passed, Put, Injects, Consume, ViewOf, Marks;
    var v := ViewOf(s, id);
    SentAppend(s.sent, Sent(v, id, now), b);
    PassMarks(v, now);
  }

  lemma SentStep(s: State, c: Call, b: nat)
    requires Sized(s) && IsBurst(b)
    ensures SentOf(Apply(s, c).sent, b) == SentOf(s.sent, b) + ShotsOf(Marks(ViewOf(s, b), LocalOp(s, c, b)))
  {
    if c.RunTask? {
      hide Marks, ViewOf, AfterTask;
      if IsBurst(c.id) { SentByTask(s, c.id, c.now, b); }
      NoShotsIn(ViewOf(s, b), Other);
    } else {
      hide Marks, ViewOf, Or, With, Without, Declared, Withdrawn, Params, Cycles, Enabled, DeclaredTask, RemovedTask;
      NoShotsIn(ViewOf(s, b), LocalOp(s, c, b));
    }
  }

  lemma NoShotsIn(v: View, op: Op)
    requires !op.Pass?
    ensures ShotsOf(Marks(v, op)) == []
  {
  }

  lemma PassMarks(v: View, now: nat)
    ensures ShotsOf(Marks(v, Pass(now))) == if Injects(v, now) then [(Consume(v).task.deadline, now)] else []
  {
    hide Injects, Consume;
    var a := if v.trig then [Consumed(v.trigDeadline)] else [];
    var b := if Injects(v, now) then [Shot(Consume(v).task.deadline, now, v.task.period)] else [];
    ShotsOfAppend(a, b);
  }

  /** The messages that a run injects for a burst are the shots in the log of that burst. */
  lemma {:induction false} SentRun(s: State, calls: seq<Call>, b: nat)
    requires Sized(s) && IsBurst(b)
    ensures SentOf(Run(s, calls).sent, b) == SentOf(s.sent, b) + ShotsOf(Log(ViewOf(s, b), LocalOps(s, calls, b)))
    decreases |calls|
  {
    hide ViewOf, Apply, LocalOp, Step, Marks;
    if calls != [] {
      var r, op := Apply(s, calls[0]), LocalOp(s, calls[0], b);
      SentStep(s, calls[0], b);
      ViewStep(s, calls[0], b);
      SentRun(r, calls[1..], b);
      assert LocalOps(s, calls, b)[1..] == LocalOps(r, calls[1..], b);
      ShotsOfAppend(Marks(ViewOf(s, b), op), Log(ViewOf(r, b), LocalOps(r, calls[1..], b)));
    }
  }

  // ---------------------------------------------------------------- whole runs

  /** Only tasks run and actions arrive: the firmware refuses commands of the host while it is ready for operation. */
  predicate OpReady(calls: seq<Call>)
  {
    forall i | 0 <= i < |calls| :: calls[i].RunTask? || calls[i].Arrive?
  }

  lemma {:induction false} OpReadyHasNoCommands(s: State, calls: seq<Call>, b: nat)
    requires Sized(s) && IsBurst(b) && OpReady(calls)
    ensures NoCommands(LocalOps(s, calls, b))
    decreases |calls|
  {
    hide Apply, Has, Known;
    if calls != [] {
      OpReadyHasNoCommands(Apply(s, calls[0]), calls[1..], b);
    }
  }

  /** In every run and for every burst: the messages sent are the shots of the burst's log, each is sent before its
      deadline, and two with neither a trigger nor a command between them are one period apart. */
  lemma RunIsSafe(s: State, calls: seq<Call>, b: nat)
    requires Sized(s) && IsBurst(b)
    ensures var log := Log(ViewOf(s, b), LocalOps(s, calls, b));
      && SentOf(Run(s, calls).sent, b) == SentOf(s.sent, b) + ShotsOf(log)
      && ShotsInFuture(log) && Chained(log)
  {
    hide ViewOf, LocalOps, Log, Run;
    SentRun(s, calls, b);
    EveryShotInFuture(ViewOf(s, b), LocalOps(s, calls, b));
    EveryRunChained(ViewOf(s, b), LocalOps(s, calls, b));
  }

  lemma {:induction false} ShotsCounted(log: seq<Mark>)
    ensures |ShotsOf(log)| == Shots(log)
  {
    if log != [] { ShotsCounted(log[1..]); }
  }

  /** In operation a burst without cycles sends nothing, whatever events arrive. */
  lemma RestingBurstIsSilent(s: State, calls: seq<Call>, b: nat)
    requires Sized(s) && IsBurst(b) && OpReady(calls) && s.tasks[b].cycle == 0
    ensures SentOf(Run(s, calls).sent, b) == SentOf(s.sent, b) && Run(s, calls).tasks[b].cycle == 0
  {
    hide LocalOps, Log, Run, After, Has;
    var ops := LocalOps(s, calls, b);
    OpReadyHasNoCommands(s, calls, b);
    SentRun(s, calls, b);
    ViewRun(s, calls, b);
    NoCyclesNoShots(ViewOf(s, b), ops);
    ShotsCounted(Log(ViewOf(s, b), ops));
  }

  /** In operation, with no toggle for the burst, the messages sent and the cycles left make up the cycles set. */
  lemma BurstIsConserved(s: State, calls: seq<Call>, b: nat)
    requires Sized(s) && IsBurst(b) && OpReady(calls) && s.tasks[b].cycle >= 0
    requires !Has(s.toggCtrl.bursts, b) && NoToggles(LocalOps(s, calls, b))
    ensures var r := Run(s, calls);
      && |SentOf(r.sent, b)| - |SentOf(s.sent, b)| + r.tasks[b].cycle == s.tasks[b].cycle
      && r.tasks[b].cycle >= 0 && (s.tasks[b].cycle > 0 && r.tasks[b].cycle == 0 ==> Has(r.cycled, b))
  {
    hide LocalOps, Log, Run, After, Has;
    var ops := LocalOps(s, calls, b);
    OpReadyHasNoCommands(s, calls, b);
    SentRun(s, calls, b);
    ViewRun(s, calls, b);
    CyclesConserved(ViewOf(s, b), ops);
    ShotsCounted(Log(ViewOf(s, b), ops));
  }

  /** The times at which tasks run do not decrease. */
  predicate Monotone(calls: seq<Call>, now: nat)
  {
    calls != [] ==>
      if calls[0].RunTask? then now <= calls[0].now && Monotone(calls[1..], calls[0].now) else Monotone(calls[1..], now)
  }

  lemma {:induction false} ClockOfBurst(s: State, calls: seq<Call>, b: nat, before: nat, now: nat)
    requires Sized(s) && IsBurst(b) && before <= now && Monotone(calls, now)
    ensures Clock(LocalOps(s, calls, b), before)
    decreases |calls|
  {
    hide Apply, Has, Known;
    if calls != [] {
      var c := calls[0];
      var op, rest := LocalOp(s, c, b), LocalOps(Apply(s, c), calls[1..], b);
      assert LocalOps(s, calls, b)[1..] == rest;
      ClockOfBurst(Apply(s, c), calls[1..], b, if op.Pass? then op.now else before, if c.RunTask? then c.now else now);
    }
  }

  /** In operation with a clock that does not run backwards, a burst that has missed its deadline sends nothing more
      until one of its triggers arrives. */
  lemma MissedBurstIsSilent(s: State, calls: seq<Call>, b: nat, now: nat)
    requires Sized(s) && IsBurst(b) && OpReady(calls) && Monotone(calls, now) && s.tasks[b].deadline <= now
    requires !Has(s.trigCtrl.bursts, b) && NoTriggers(LocalOps(s, calls, b))
    ensures SentOf(Run(s, calls).sent, b) == SentOf(s.sent, b)
  {
    hide LocalOps, Log, Run, Has;
    var ops := LocalOps(s, calls, b);
    OpReadyHasNoCommands(s, calls, b);
    ClockOfBurst(s, calls, b, now, now);
    SentRun(s, calls, b);
    MissedNeverShoots(ViewOf(s, b), ops, now);
    ShotsCounted(Log(ViewOf(s, b), ops));
  }

  lemma {:induction false} TrainIsSent(log: seq<Mark>, d: nat, period: nat, i: nat)
    requires Train(log, d, period)
    ensures |ShotsOf(log)| == |log| && (i < |log| ==> ShotsOf(log)[i].0 == d + i * period)
  {
    if log != [] {
      TrainRest(log, d, period);
      if i > 0 {
        TrainIsSent(log[1..], d + period, period, i - 1);
        assert (i - 1) * period + period == i * period;
      } else {
        TrainIsSent(log[1..], d + period, period, 0);
        assert log[0].deadline == d + 0 * period;
      }
    }
  }

  lemma TrainRest(log: seq<Mark>, d: nat, period: nat)
    requires log != [] && Train(log, d, period)
    ensures Train(log[1..], d + period, period)
  {
    forall i | 0 <= i < |log| - 1
      ensures log[1..][i].Shot? && log[1..][i].deadline == d + period + i * period
    {
      assert log[1..][i] == log[i + 1];
      assert (i + 1) * period == i * period + period;
    }
  }

  /** In operation, when the turn of a burst comes and a toggle is pending that ends after the next deadline: unless
      another event for the burst arrives, the messages sent from then on are exactly those of the deadlines up to the
      toggle, in order and without a gap, and when the burst has ended none of them is missing. */
  lemma ToggledBurstEnds(s: State, b: nat, now: nat, calls: seq<Call>)
    requires Sized(s) && IsBurst(b) && OpReady(calls)
    requires Has(s.toggCtrl.bursts, b) && !Has(s.trigCtrl.bursts, b)
    requires 0 < s.tasks[b].deadline < s.toggCtrl.deadline && s.tasks[b].cycle != 0 && s.tasks[b].period > 0
    requires var ops := LocalOps(Apply(s, RunTask(b, now)), calls, b); NoTriggers(ops) && NoToggles(ops)
    ensures var r, d, p := Run(s, [RunTask(b, now)] + calls), s.tasks[b].deadline, s.tasks[b].period;
      var before, all := |SentOf(s.sent, b)|, SentOf(r.sent, b);
      && before <= |all| && all[..before] == SentOf(s.sent, b)
      && (forall i: nat | i < |all| - before :: all[before + i].0 == d + i * p <= s.toggCtrl.deadline)
      && (r.tasks[b].cycle == 0 ==> AllUpTo(|all| - before, d, p, s.toggCtrl.deadline))
  {
    hide Apply, LocalOps, Log, Run, After, Has, SentOf, ShotsOf, Train, AllUpTo;
    var rest := LocalOps(Apply(s, RunTask(b, now)), calls, b);
    var log := Log(ViewOf(s, b), [Pass(now)] + rest);
    TurnIsPass(s, b, now, calls);
    OpReadyHasNoCommands(Apply(s, RunTask(b, now)), calls, b);
    SentRun(s, [RunTask(b, now)] + calls, b);
    ViewRun(s, [RunTask(b, now)] + calls, b);
    ToggleLeaves(ViewOf(s, b), now, rest);
    TrainIsSent(log, s.tasks[b].deadline, s.tasks[b].period, 0);
    forall i: nat | i < |log|
      ensures ShotsOf(log)[i].0 == s.tasks[b].deadline + i * s.tasks[b].period
    {
      TrainIsSent(log, s.tasks[b].deadline, s.tasks[b].period, i);
    }
  }

  lemma TurnIsPass(s: State, b: nat, now: nat, calls: seq<Call>)
    requires Sized(s) && IsBurst(b)
    ensures LocalOps(s, [RunTask(b, now)] + calls, b) == [Pass(now)] + LocalOps(Apply(s, RunTask(b, now)), calls, b)
  {
    hide Apply, Known, Has;
    assert ([RunTask(b, now)] + calls)[1..] == calls;
  }

  /** In operation, a toggle that finds no deadline, or ends no later than the next one, ends the burst for good. */
  lemma ToggledBurstIsSilent(s: State, b: nat, now: nat, calls: seq<Call>)
    requires Sized(s) && IsBurst(b) && OpReady(calls)
    requires Has(s.toggCtrl.bursts, b) && !Has(s.trigCtrl.bursts, b)
    requires s.tasks[b].deadline == 0 || s.toggCtrl.deadline <= s.tasks[b].deadline
    ensures var r := Run(s, [RunTask(b, now)] + calls);
      SentOf(r.sent, b) == SentOf(s.sent, b) && r.tasks[b].cycle == 0
  {
    hide Apply, LocalOps, Log, Run, After, Has, SentOf, ShotsOf;
    var rest := LocalOps(Apply(s, RunTask(b, now)), calls, b);
    TurnIsPass(s, b, now, calls);
    OpReadyHasNoCommands(Apply(s, RunTask(b, now)), calls, b);
    SentRun(s, [RunTask(b, now)] + calls, b);
    ViewRun(s, [RunTask(b, now)] + calls, b);
    ToggleEnds(ViewOf(s, b), now, rest);
    ShotsCounted(Log(ViewOf(s, b), [Pass(now)] + rest));
  }

  /** In a state with the invariant an action is a trigger for a burst exactly if it has the tag and the burst
      declares its event as trigger. */
  lemma HitMeans(s: State, a: Action, b: nat)
    requires Inv(s) && IsBurst(b)
    ensures LocalOp(s, Arrive(a), b) == Trigger(true, a.deadline + a.param)
       <==> a.tag == 0xb2b2_b2b2 && a.event != 0 && s.tasks[b].trigger == a.event
    ensures LocalOp(s, Arrive(a), b).Trigger? ==> LocalOp(s, Arrive(a), b).deadline == a.deadline + a.param
  {
    hide Has, WellFormed, Inverse, CreatedOk;
    if a.event != 0 {
      EventFound(s.trig, TriggersOf(s.tasks), a.event, b);
      if s.tasks[b].trigger == a.event { assert TriggersOf(s.tasks)[1..][b - 1] == a.event; }
    } else {
      EventZero(s.trig, TriggersOf(s.tasks));
      HasNone(b);
    }
  }

  /** In every run a burst takes over no more triggers than have arrived for it, counting one that was pending at
      first and not one that is pending in the end. */
  lemma TriggersTakenOnce(s: State, calls: seq<Call>, b: nat)
    requires Sized(s) && IsBurst(b)
    ensures var ops := LocalOps(s, calls, b);
      Taken(Log(ViewOf(s, b), ops)) + (if Has(Run(s, calls).trigCtrl.bursts, b) then 1 else 0)
      <= Hits(ops) + (if Has(s.trigCtrl.bursts, b) then 1 else 0)
  {
    hide LocalOps, Log, Run, After, Has;
    ViewRun(s, calls, b);
    TriggersUsedOnce(ViewOf(s, b), LocalOps(s, calls, b));
  }

  /** In operation a burst that was removed sends nothing, whatever events arrive. */
  lemma RemovedBurstIsSilent(s: State, calls: seq<Call>, b: nat)
    requires Sized(s) && IsBurst(b) && OpReady(calls)
    ensures SentOf(Run(Apply(s, RmBurst(b)), calls).sent, b) == SentOf(s.sent, b)
  {
    hide Run, Has, Withdrawn, Without, SentOf;
    RestingBurstIsSilent(Apply(s, RmBurst(b)), calls, b);
  }

  lemma OneCall(s: State, c: Call, calls: seq<Call>, b: nat)
    requires Sized(s) && IsBurst(b)
    ensures LocalOps(s, [c] + calls, b) == [LocalOp(s, c, b)] + LocalOps(Apply(s, c), calls, b)
    ensures Run(s, [c] + calls) == Run(Apply(s, c), calls)
  {
    hide Apply, LocalOp;
    assert ([c] + calls)[1..] == calls;
  }

  /** What the host sends to set up burst `b`. */
  function Commands(b: nat, ioType: bv8, ioIndex: bv8, trigger: nat, toggle: nat, setup: nat, period: nat, n: int)
    : seq<Call>
  {
    [MkBurst(b, ioType, ioIndex, trigger, toggle), GetParam(b, setup, period, false), GetCycle(b, n)]
  }

  /** Its commands, as the burst sees them, and its trigger. */
  lemma SetUpCalls(s: State, b: nat, ioType: bv8, ioIndex: bv8, trigger: nat, toggle: nat, setup: nat, period: nat,
                   n: int, a: Action, rest: seq<Call>) returns (r: State)
    requires Inv(s) && IsBurst(b) && !Has(s.created, b)
    requires trigger != 0 && a.tag == 0xb2b2_b2b2 && a.event == trigger
    ensures var calls := Commands(b, ioType, ioIndex, trigger, toggle, setup, period, n) + ([Arrive(a)] + rest);
      && r == Run(s, Commands(b, ioType, ioIndex, trigger, toggle, setup, period, n) + [Arrive(a)])
      && Sized(r) && Run(s, calls) == Run(r, rest)
      && LocalOps(s, calls, b)
         == SetUp(ioType, ioIndex, trigger, toggle, setup, period, n, a.deadline + a.param) + LocalOps(r, rest, b)
    ensures r.sent == s.sent
  {
    hide Inv, Apply, LocalOps, Run, Has, Replaces;
    var cs := Commands(b, ioType, ioIndex, trigger, toggle, setup, period, n);
    InvIsSized(s);
    FreshReplaces(s, cs[0]);
    var s1 := Declares(s, cs[0]);
    var s2 := Adjusts(s1, cs[1]);
    var s3 := Adjusts(s2, cs[2]);
    HitMeans(s3, a, b);
    r := Apply(s3, Arrive(a));
    SentKept(s3, a);
    OneCall(s, cs[0], [cs[1]] + ([cs[2]] + ([Arrive(a)] + rest)), b);
    OneCall(s1, cs[1], [cs[2]] + ([Arrive(a)] + rest), b);
    OneCall(s2, cs[2], [Arrive(a)] + rest, b);
    OneCall(s3, Arrive(a), rest, b);
    assert cs + ([Arrive(a)] + rest) == [cs[0]] + ([cs[1]] + ([cs[2]] + ([Arrive(a)] + rest)));
    FourCalls(s, cs[0], cs[1], cs[2], Arrive(a));
    assert cs + [Arrive(a)] == [cs[0], cs[1], cs[2], Arrive(a)];
  }

  lemma FourCalls(s: State, a: Call, b: Call, c: Call, d: Call)
    requires Sized(s)
    ensures Run(s, [a, b, c, d]) == Apply(Apply(Apply(Apply(s, a), b), c), d)
  {
    hide Apply, Run;
    RunFirst(s, a, [b, c, d]);
    RunFirst(Apply(s, a), b, [c, d]);
    RunFirst(Apply(Apply(s, a), b), c, [d]);
    RunFirst(Apply(Apply(Apply(s, a), b), c), d, []);
    assert [a, b, c, d] == [a] + [b, c, d] && [b, c, d] == [b] + [c, d] && [c, d] == [c] + [d] && [d] == [d] + [];
  }

  lemma RunFirst(s: State, c: Call, calls: seq<Call>)
    requires Sized(s)
    ensures Run(s, [c] + calls) == Run(Apply(s, c), calls) && Run(s, []) == s
    ensures Run(Apply(s, c), []) == Apply(s, c)
  {
    hide Apply;
    assert ([c] + calls)[1..] == calls;
  }

  lemma Declares(s: State, c: Call) returns (r: State)
    requires Inv(s) && c.MkBurst? && IsBurst(c.id) && Replaces(s, c)
    ensures r == Apply(s, c) && Inv(r) && Sized(r) && r.tasks[c.id].trigger == c.trigger && r.sent == s.sent
  {
    hide Inv, Replaces;
    InvIsSized(s);
    CallKeepsInv(s, c);
    r := Apply(s, c);
  }

  lemma Adjusts(s: State, c: Call) returns (r: State)
    requires Inv(s) && (c.GetParam? || c.GetCycle?) && IsBurst(c.id)
    ensures r == Apply(s, c) && Inv(r) && Sized(r) && r.sent == s.sent
    ensures Sized(s) && r.tasks[c.id].trigger == s.tasks[c.id].trigger
  {
    hide Inv;
    InvIsSized(s);
    CallKeepsInv(s, c);
    r := Apply(s, c);
  }

  lemma SentKept(s: State, a: Action)
    requires Sized(s)
    ensures Apply(s, Arrive(a)).sent == s.sent
  {
  }

  /** A burst that the host declares under a free id, with setup time `setup`, a period and `n` cycles, and that is then
      triggered for a deadline, sends exactly the messages for that deadline plus `setup`, one period later and so on,
      in order and without a gap, one for each cycle used. */
  lemma BurstRuns(s: State, b: nat, ioType: bv8, ioIndex: bv8, trigger: nat, toggle: nat, setup: nat, period: nat,
                  n: int, a: Action, now: nat, rest: seq<Call>)
    requires Inv(s) && IsBurst(b) && !Has(s.created, b) && OpReady(rest)
    requires !Has(s.trigCtrl.bursts, b) && !Has(s.toggCtrl.bursts, b)
    requires trigger != 0 && a.tag == 0xb2b2_b2b2 && a.event == trigger
    requires var q := Run(s, Commands(b, ioType, ioIndex, trigger, toggle, setup, period, n) + [Arrive(a)]);
      var ops := LocalOps(Apply(q, RunTask(b, now)), rest, b);
      NoTriggers(ops) && NoToggles(ops)
    ensures var calls := Commands(b, ioType, ioIndex, trigger, toggle, setup, period, n)
                         + ([Arrive(a)] + ([RunTask(b, now)] + rest));
      var r, d := Run(s, calls), a.deadline + a.param + setup;
      var before, all := |SentOf(s.sent, b)|, SentOf(r.sent, b);
      && before <= |all| && all[..before] == SentOf(s.sent, b)
      && (forall i: nat | i < |all| - before :: all[before + i].0 == d + i * period)
      && (n >= 0 ==> r.tasks[b].cycle >= 0 && |all| - before + r.tasks[b].cycle == n)
      && (n < 0 ==> r.tasks[b].cycle == n && r.tasks[b].deadline == d + (|all| - before) * period)
  {
    hide Inv, Apply, LocalOps, Log, Run, After, Has, SentOf, ShotsOf, Train, SetUp;
    InvIsSized(s);
    var cs := Commands(b, ioType, ioIndex, trigger, toggle, setup, period, n);
    var q := SetUpCalls(s, b, ioType, ioIndex, trigger, toggle, setup, period, n, a, [RunTask(b, now)] + rest);
    var calls := cs + ([Arrive(a)] + ([RunTask(b, now)] + rest));
    var ops := LocalOps(Apply(q, RunTask(b, now)), rest, b);
    TurnIsPass(q, b, now, rest);
    OpReadyHasNoCommands(Apply(q, RunTask(b, now)), rest, b);
    SetUpTrain(ViewOf(s, b), ioType, ioIndex, trigger, toggle, setup, period, n, a.deadline + a.param, now, ops);
    var log := Log(ViewOf(s, b), LocalOps(s, calls, b));
    SentRun(s, calls, b);
    ViewRun(s, calls, b);
    FrontIsSilent(log);
    TrainIsSent(log[4..], a.deadline + a.param + setup, period, 0);
    forall i: nat | i < |log[4..]|
      ensures ShotsOf(log[4..])[i].0 == a.deadline + a.param + setup + i * period
    {
      TrainIsSent(log[4..], a.deadline + a.param + setup, period, i);
    }
  }

  /** The four marks before the messages are none. */
  lemma FrontIsSilent(log: seq<Mark>)
    requires |log| >= 4 && forall i | 0 <= i < 4 :: !log[i].Shot?
    ensures ShotsOf(log) == ShotsOf(log[4..])
  {
    assert log[1..][1..] == log[2..] && log[2..][1..] == log[3..] && log[3..][1..] == log[4..];
    assert ShotsOf(log[1..]) == ShotsOf(log[2..]) == ShotsOf(log[3..]) == ShotsOf(log[4..]);
  }

  /** Declarations of ids that are not created replace nothing. */
  predicate AllFresh(s: State, calls: seq<Call>)
    requires Sized(s)
    decreases |calls|
  {
    calls == [] ||
    (&& (calls[0].MkBurst? && IsBurst(calls[0].id) ==> !Has(s.created, calls[0].id))
     && AllFresh(Apply(s, calls[0]), calls[1..]))
  }

  lemma {:induction false} FreshRunKeepsInv(s: State, calls: seq<Call>)
    requires Inv(s) && AllFresh(s, calls)
    ensures Inv(Run(s, calls))
    decreases |calls|
  {
    hide Inv, Apply, Replaces, Has;
    if calls != [] {
      InvIsSized(s);
      FreshReplaces(s, calls[0]);
      CallKeepsInv(s, calls[0]);
      FreshRunKeepsInv(Apply(s, calls[0]), calls[1..]);
    }
  }

  lemma FreshReplaces(s: State, c: Call)
    requires Inv(s) && (c.MkBurst? && IsBurst(c.id) ==> !Has(s.created, c.id))
    ensures Replaces(s, c)
  {
    hide WellFormed, Inverse, Has, IsValid, TriggersOf, TogglesOf;
  }

  // ---------------------------------------------------------------- composing the halves of a pass

  /** Putting a view twice is putting the second, if the first only clears what is set or sets it the same way. */
  lemma PutTwice(s: State, id: nat, v: View, w: View)
    requires Sized(s) && IsBurst(id)
    requires v.trig == w.trig && v.togg == w.togg && (v.cycled == w.cycled || v.cycled == Has(s.cycled, id))
    ensures Put(Put(s, id, v), id, w) == Put(s, id, w)
  {
    hide Has, SetTo;
    SetTwice(s.trigCtrl.bursts, id, v.trig, w.trig);
    SetTwice(s.toggCtrl.bursts, id, v.togg, w.togg);
    SetTwice(s.cycled, id, v.cycled, w.cycled);
  }
}
