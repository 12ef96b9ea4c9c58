/** One burst: how a pass of its task and the events and commands that reach it change it, and what it injects. */
module BurstTasks {

  const CTL_DIS: bv32 := 0
  const CTL_EN: bv32 := 1
  const CTL_VALID: bv32 := 0x8000

  datatype Status = Ok | Error | Idle | NotReady | Disabled

  /** `cycle` counts down to 0; a negative count is an endless burst.  `deadline` 0 means that none is set. */
  datatype Task = Task(state: int, flag: bv32, ioType: bv8, ioIndex: bv8, trigger: nat, toggle: nat, setup: nat,
                       cycle: int, period: nat, deadline: nat, lasttick: nat, action: nat, failed: nat)

  /** What concerns one burst: its task, its bits in the trigger, toggle and cycled words, and the two shared
      deadlines. */
  datatype View = View(task: Task, trig: bool, togg: bool, trigDeadline: nat, toggDeadline: nat, cycled: bool)

  predicate IsValid(flag: bv32) { flag & CTL_VALID != 0 }
  function SetEnable(flag: bv32): bv32 { flag | CTL_EN }
  function ClearEnable(flag: bv32): bv32 { flag & !CTL_EN }

  /** What C makes of `flag & CTL_EN == CTL_DIS`: the comparison binds tighter than the mask. */
  function DisabledTest(flag: bv32): bv32
  {
    flag & (if CTL_EN == CTL_DIS then 1 else 0)
  }

  lemma NeverDisabled(flag: bv32)
    ensures DisabledTest(flag) == 0
  {
  }

  /** C leaves a division by 0 undefined; what is proved about toggles asks for a positive period. */
  function Quotient(a: nat, b: nat): nat
  {
    if b == 0 then 0 else a / b
  }

  // ---------------------------------------------------------------- one pass of the task

  function AfterTrigger(t: Task, deadline: nat): Task
  {
    t.(lasttick := 0, failed := 0, deadline := deadline + t.setup)
  }

  predicate OverAlready(t: Task, deadline: nat)
  {
    t.deadline != 0 && t.deadline >= deadline
  }

  function AfterToggle(t: Task, deadline: nat): Task
  {
    if t.deadline == 0 then t.(cycle := 0)
    else if t.deadline >= deadline then t.(deadline := 0, cycle := 0)
    else if t.cycle != 0 then
      var remaining := deadline - t.deadline;
      t.(cycle := if remaining < t.period then 1 else Quotient(remaining, t.period) + 1)
    else t
  }

  /** The pass takes over a pending trigger, or else a pending toggle. */
  function Consume(v: View): View
  {
    if v.trig then v.(trig := false, task := AfterTrigger(v.task, v.trigDeadline))
    else if v.togg then
      v.(togg := false, task := AfterToggle(v.task, v.toggDeadline),
         cycled := v.cycled || OverAlready(v.task, v.toggDeadline))
    else v
  }

  function Verdict(t: Task, now: nat): Status
  {
    if t.deadline <= now then Error
    else if t.deadline == 0 then NotReady
    else if DisabledTest(t.flag) != 0 then Disabled
    else if t.cycle == 0 then NotReady
    else Ok
  }

  predicate Due(t: Task, now: nat)
  {
    t.lasttick == 0 || (t.deadline - now < t.period && t.lasttick < now)
  }

  function Fired(t: Task, now: nat): Task
  {
    t.(action := now, lasttick := t.deadline,
       deadline := if t.cycle == 1 then 0 else t.deadline + t.period,
       cycle := if t.cycle > 0 then t.cycle - 1 else t.cycle)
  }

  function Stamped(t: Task, now: nat): Task
  {
    if t.deadline <= now && t.failed == 0 then t.(failed := now) else t
  }

  predicate Injects(v: View, now: nat)
  {
    Verdict(Consume(v).task, now) == Ok && Due(Consume(v).task, now)
  }

  function Passed(v: View, now: nat): View
  {
    var w := Consume(v);
    if Injects(v, now) then w.(task := Fired(w.task, now), cycled := w.cycled || w.task.cycle == 1)
    else w.(task := Stamped(w.task, now))
  }

  function Result(v: View, now: nat): Status
  {
    var r := Verdict(Consume(v).task, now);
    if r == Ok && !Due(Consume(v).task, now) then Idle else r
  }

  // ---------------------------------------------------------------- everything that happens to a burst

  /** `hit` says that the event is declared for this burst. */
  datatype Op =
    | Pass(now: nat)
    | Trigger(hit: bool, deadline: nat)
    | Toggle(hit: bool, deadline: nat)
    | SetParam(setup: nat, period: nat, add: bool)
    | SetCycle(cycle: int)
    | Declare(ioType: bv8, ioIndex: bv8, trigger: nat, toggle: nat)
    | Remove
    | Enable(on: bool)
    | ReadCycled
    | Other

  function Params(t: Task, setup: nat, period: nat, add: bool): Task
  {
    if IsValid(t.flag) then t.(period := if add then t.period + period else period, setup := setup) else t
  }

  function Cycles(t: Task, n: int): Task
  {
    if IsValid(t.flag) then t.(cycle := n, deadline := 0) else t
  }

  function DeclaredTask(t: Task, ioType: bv8, ioIndex: bv8, trigger: nat, toggle: nat): Task
  {
    t.(ioType := ioType, ioIndex := ioIndex, trigger := trigger, toggle := toggle, period := 0, cycle := 0,
       deadline := 0, state := 0, flag := CTL_VALID)
  }

  function RemovedTask(t: Task): Task
  {
    t.(flag := CTL_DIS, ioType := 0, ioIndex := 0, trigger := 0, toggle := 0, period := 0, cycle := 0, setup := 0,
       deadline := 0, lasttick := 0, action := 0, failed := 0)
  }

  function Enabled(t: Task, on: bool): Task
  {
    if !IsValid(t.flag) then t else t.(flag := if on then SetEnable(t.flag) else ClearEnable(t.flag))
  }

  function Step(v: View, op: Op): View
  {
    match op
    case Pass(now) => Passed(v, now)
    case Trigger(hit, deadline) => v.(trig := v.trig || hit, trigDeadline := deadline)
    case Toggle(hit, deadline) => v.(togg := v.togg || hit, toggDeadline := deadline)
    case SetParam(setup, period, add) => v.(task := Params(v.task, setup, period, add))
    case SetCycle(n) => v.(task := Cycles(v.task, n))
    case Declare(ioType, ioIndex, trigger, toggle) => v.(task := DeclaredTask(v.task, ioType, ioIndex, trigger, toggle))
    case Remove => v.(task := RemovedTask(v.task))
    case Enable(on) => v.(task := Enabled(v.task, on))
    case ReadCycled => v.(cycled := false)
    case Other => v
  }

  function After(v: View, ops: seq<Op>): View
    decreases |ops|
  {
    if ops == [] then v else After(Step(v, ops[0]), ops[1..])
  }

  /** What can be seen of a burst: an injected message, a trigger that is taken over, a change by the host. */
  datatype Mark = Shot(deadline: nat, now: nat, period: nat) | Consumed(deadline: nat) | Command

  /** Commands of the host that set up the burst anew. */
  predicate IsCommand(op: Op)
  {
    op.SetParam? || op.SetCycle? || op.Declare? || op.Remove?
  }

  function Marks(v: View, op: Op): seq<Mark>
  {
    if op.Pass? then
      (if v.trig then [Consumed(v.trigDeadline)] else [])
      + (if Injects(v, op.now) then [Shot(Consume(v).task.deadline, op.now, v.task.period)] else [])
    else if IsCommand(op) then [Command]
    else []
  }

  /** The marks of a run, in order. */
  function Log(v: View, ops: seq<Op>): seq<Mark>
    decreases |ops|
  {
    if ops == [] then [] else Marks(v, ops[0]) + Log(Step(v, ops[0]), ops[1..])
  }

  // ---------------------------------------------------------------- one pass, field by field

  /** A pass that takes over a trigger uses it up and leaves a toggle pending.  The deadline is that of the trigger,
      delayed by the setup time; if there are cycles left and it is still to come, the message goes out at once. */
  lemma TriggerTaken(v: View, now: nat)
    requires v.trig
    ensures var w, d, n := Passed(v, now), v.trigDeadline + v.task.setup, v.task.cycle;
      && !w.trig && w.togg == v.togg && w.trigDeadline == v.trigDeadline && w.toggDeadline == v.toggDeadline
      && (Injects(v, now) <==> n != 0 && now < d)
      && (Injects(v, now) ==>
            && w.task == v.task.(failed := 0, action := now, lasttick := d,
                                 cycle := if n > 0 then n - 1 else n,
                                 deadline := if n == 1 then 0 else d + v.task.period)
            && w.cycled == (v.cycled || n == 1) && Result(v, now) == Ok)
      && (!Injects(v, now) ==>
            && w.task == v.task.(lasttick := 0, deadline := d, failed := if d <= now then now else 0)
            && w.cycled == v.cycled && Result(v, now) == if d <= now then Error else NotReady)
  {
    NeverDisabled(v.task.flag);
  }

  /** A pass with nothing to take over.  The next message goes out in the period before its deadline and after the
      deadline of the one before; the first one at once.  A missed deadline is stamped, once. */
  lemma PlainPass(v: View, now: nat)
    requires !v.trig && !v.togg
    ensures var w, t := Passed(v, now), v.task;
      && !w.trig && !w.togg && w.trigDeadline == v.trigDeadline && w.toggDeadline == v.toggDeadline
      && (Injects(v, now) <==> && t.cycle != 0 && now < t.deadline
                               && (t.lasttick == 0 || (t.deadline < now + t.period && t.lasttick < now)))
      && (Injects(v, now) ==>
            && w.task == t.(action := now, lasttick := t.deadline,
                            cycle := if t.cycle > 0 then t.cycle - 1 else t.cycle,
                            deadline := if t.cycle == 1 then 0 else t.deadline + t.period)
            && w.cycled == (v.cycled || t.cycle == 1) && Result(v, now) == Ok)
      && (!Injects(v, now) ==>
            && w.task == t.(failed := if t.deadline <= now && t.failed == 0 then now else t.failed)
            && w.cycled == v.cycled
            && Result(v, now) == if t.deadline <= now then Error else if t.cycle == 0 then NotReady else Idle)
  {
    NeverDisabled(v.task.flag);
  }

  /** A pass that takes over a toggle uses it up.  A burst without a deadline loses its cycles; one whose deadline is
      not before that of the toggle ends at once and counts as completed; a running one keeps as many cycles as there
      are deadlines up to that of the toggle.  After that it is an ordinary pass. */
  lemma ToggleTaken(v: View, now: nat)
    requires !v.trig && v.togg
    ensures var t, e := v.task, v.toggDeadline;
      var u := v.(togg := false);
      Passed(v, now) ==
        if t.deadline == 0 then Passed(u.(task := t.(cycle := 0)), now)
        else if e <= t.deadline then Passed(u.(task := t.(cycle := 0, deadline := 0), cycled := true), now)
        else if t.cycle == 0 then Passed(u, now)
        else if t.period == 0 then Passed(u.(task := t.(cycle := 1)), now)
        else Passed(u.(task := t.(cycle := (e - t.deadline) / t.period + 1)), now)
  {
    hide Verdict, Due, Fired, Stamped;
  }

  // ---------------------------------------------------------------- the commands, field by field

  /** Only a declared burst takes parameters: the setup time, and a period that replaces or lengthens the old one. */
  lemma ParamsAre(t: Task, setup: nat, period: nat, add: bool)
    ensures t.flag & 0x8000 == 0 ==> Params(t, setup, period, add) == t
    ensures t.flag & 0x8000 != 0 && !add ==> Params(t, setup, period, add) == t.(setup := setup, period := period)
    ensures t.flag & 0x8000 != 0 && add ==>
      Params(t, setup, period, add) == t.(setup := setup, period := t.period + period)
  {
  }

  /** Only a declared burst takes cycles; it then waits for its next trigger. */
  lemma CyclesAre(t: Task, n: int)
    ensures Cycles(t, n) == if t.flag & 0x8000 != 0 then t.(cycle := n, deadline := 0) else t
  {
  }

  /** `r` has bit 0 as `on` says, and is otherwise `flag`. */
  predicate OnlyEnable(r: bv32, flag: bv32, on: bool)
  {
    r & 1 == (if on then 1 else 0) && r & 0xffff_fffe == flag & 0xffff_fffe
  }

  /** Enabling sets bit 0 of the flag, disabling clears it; only if the burst is declared. */
  lemma EnabledIs(t: Task, on: bool)
    ensures Enabled(t, on) == t.(flag := Enabled(t, on).flag)
    ensures if t.flag & 0x8000 == 0 then Enabled(t, on) == t else OnlyEnable(Enabled(t, on).flag, t.flag, on)
  {
    hide SetEnable, ClearEnable, IsValid, OnlyEnable;
    ValidIs(t.flag);
    SetBits(t.flag);
    ClearBits(t.flag);
  }

  lemma ValidIs(flag: bv32)
    ensures IsValid(flag) <==> flag & 0x8000 != 0
  {
  }

  lemma SetBits(flag: bv32)
    ensures OnlyEnable(SetEnable(flag), flag, true)
  {
    assert (flag | 1) & 1 == 1 && (flag | 1) & 0xffff_fffe == flag & 0xffff_fffe;
  }

  lemma ClearBits(flag: bv32)
    ensures OnlyEnable(ClearEnable(flag), flag, false)
  {
    assert (flag & !1) & 1 == 0 && (flag & !1) & 0xffff_fffe == flag & 0xffff_fffe;
  }

  // ---------------------------------------------------------------- safety over every run

  lemma ConsumeKeepsPeriod(v: View)
    ensures Consume(v).task.period == v.task.period
  {
  }

  ghost predicate ShotsInFuture(log: seq<Mark>)
  {
    forall i | 0 <= i < |log| && log[i].Shot? :: log[i].now < log[i].deadline
  }

  /** No message is ever injected too late. */
  lemma {:induction false} EveryShotInFuture(v: View, ops: seq<Op>)
    ensures ShotsInFuture(Log(v, ops))
    decreases |ops|
  {
    if ops != [] {
      EveryShotInFuture(Step(v, ops[0]), ops[1..]);
    }
  }

  /** A second message with nothing in between comes one period later, and not before the first is due. */
  predicate Linked(a: Mark, b: Mark)
  {
    a.Shot? && b.Shot? ==> b.deadline == a.deadline + a.period && a.deadline < b.now
  }

  ghost predicate Chained(log: seq<Mark>)
  {
    forall i | 0 <= i < |log| - 1 :: Linked(log[i], log[i + 1])
  }

  /** The burst is as the last mark left it. */
  predicate Follows(m: Mark, v: View)
  {
    m.Shot? ==>
      && v.task.lasttick == m.deadline > 0 && v.task.period == m.period
      && (v.task.deadline == m.deadline + m.period || v.task.deadline == 0)
      && (v.task.cycle == 0 ==> v.task.deadline == 0)
  }

  function LastMark(m: Mark, log: seq<Mark>): Mark
  {
    if log == [] then m else log[|log| - 1]
  }

  lemma StepFollows(m: Mark, v: View, op: Op)
    requires Follows(m, v)
    ensures Chained([m] + Marks(v, op))
    ensures Follows(LastMark(m, Marks(v, op)), Step(v, op))
  {
    hide IsValid, SetEnable, ClearEnable, DisabledTest;
    if op.Pass? {
      PassFollows(m, v, op.now);
    }
  }

  lemma PassFollows(m: Mark, v: View, now: nat)
    requires Follows(m, v)
    ensures Chained([m] + Marks(v, Pass(now)))
    ensures Follows(LastMark(m, Marks(v, Pass(now))), Passed(v, now))
  {
    hide Consume, Verdict, Due, Fired, Stamped, Follows, Linked;
    var w := Consume(v);
    var k := if v.trig then Consumed(v.trigDeadline) else m;
    ConsumeFollows(m, v);
    FireFollows(k, w, now);
    if v.trig { NotShot(m, k); }
    ConsumeKeepsPeriod(v);
  }

  lemma NotShot(m: Mark, k: Mark)
    requires !k.Shot?
    ensures Linked(m, k)
  {
  }

  /** Taking over a trigger starts anew; taking over a toggle leaves the next deadline or ends the burst. */
  lemma ConsumeFollows(m: Mark, v: View)
    requires Follows(m, v)
    ensures Follows(if v.trig then Consumed(v.trigDeadline) else m, Consume(v))
  {
    hide Quotient;
  }

  lemma FireFollows(k: Mark, w: View, now: nat)
    requires Follows(k, w)
    ensures Verdict(w.task, now) == Ok && Due(w.task, now) ==>
      var s := Shot(w.task.deadline, now, w.task.period);
      Linked(k, s) && Follows(s, w.(task := Fired(w.task, now), cycled := w.cycled || w.task.cycle == 1))
    ensures Follows(k, w.(task := Stamped(w.task, now)))
  {
    hide DisabledTest;
  }

  lemma JoinChains(m: Mark, a: seq<Mark>, b: seq<Mark>)
    requires Chained([m] + a) && Chained([LastMark(m, a)] + b)
    ensures Chained([m] + (a + b))
  {
    var s := [m] + (a + b);
    var p, q := [m] + a, [LastMark(m, a)] + b;
    forall i | 0 <= i < |s| - 1
      ensures Linked(s[i], s[i + 1])
    {
      if i < |a| {
        assert s[i] == p[i] && s[i + 1] == p[i + 1];
      } else {
        assert s[i] == q[i - |a|] && s[i + 1] == q[i - |a| + 1];
      }
    }
  }

  /** In every run, messages with neither a trigger nor a command between them are one period apart,
      and each is injected only after the one before was due. */
  lemma {:induction false} RunChained(m: Mark, v: View, ops: seq<Op>)
    requires Follows(m, v)
    ensures Chained([m] + Log(v, ops))
    ensures Follows(LastMark(m, Log(v, ops)), After(v, ops))
    decreases |ops|
  {
    if ops != [] {
      var first := Marks(v, ops[0]);
      StepFollows(m, v, ops[0]);
      RunChained(LastMark(m, first), Step(v, ops[0]), ops[1..]);
      JoinChains(m, first, Log(Step(v, ops[0]), ops[1..]));
    }
  }

  lemma EveryRunChained(v: View, ops: seq<Op>)
    ensures Chained(Log(v, ops))
  {
    RunChained(Command, v, ops);
    var s := [Command] + Log(v, ops);
    forall i | 0 <= i < |Log(v, ops)| - 1
      ensures Linked(Log(v, ops)[i], Log(v, ops)[i + 1])
    {
      assert Linked(s[i + 1], s[i + 2]);
    }
  }

  /** After a message, the next pass injects exactly if it comes within the period that follows. */
  lemma InjectsInPeriod(m: Mark, v: View, now: nat)
    requires Follows(m, v) && m.Shot? && !v.trig && !v.togg && v.task.cycle != 0 && v.task.deadline != 0
    ensures Injects(v, now) <==> m.deadline < now < m.deadline + m.period
  {
    NeverDisabled(v.task.flag);
  }

  /** A pass that takes over a trigger injects at once, for the deadline of the trigger plus the time for the burst's
      head, exactly if the burst has cycles left and that deadline is still to come. */
  lemma TriggerInjects(v: View, now: nat)
    requires v.trig
    ensures Injects(v, now) <==> v.task.cycle != 0 && now < v.trigDeadline + v.task.setup
    ensures Marks(v, Pass(now)) == [Consumed(v.trigDeadline)]
      + if Injects(v, now) then [Shot(v.trigDeadline + v.task.setup, now, v.task.period)] else []
  {
    NeverDisabled(v.task.flag);
  }

  /** The clock does not run backwards. */
  predicate Clock(ops: seq<Op>, now: nat)
    decreases |ops|
  {
    ops != [] ==>
      if ops[0].Pass? then now <= ops[0].now && Clock(ops[1..], ops[0].now) else Clock(ops[1..], now)
  }

  predicate StartsSilent(log: seq<Mark>)
  {
    log != [] ==> !log[0].Shot?
  }

  /** A burst that has missed its deadline is silent until a trigger is taken over or the host sets it up anew. */
  lemma {:induction false} MissedIsSilent(v: View, ops: seq<Op>, now: nat)
    requires v.task.deadline <= now && Clock(ops, now)
    ensures StartsSilent(Log(v, ops))
    decreases |ops|
  {
    if ops != [] {
      var op := ops[0];
      if Marks(v, op) == [] {
        StaysMissed(v, op, now);
        MissedIsSilent(Step(v, op), ops[1..], if op.Pass? then op.now else now);
      } else {
        MissedMark(v, op, now);
      }
    }
  }

  lemma StaysMissed(v: View, op: Op, now: nat)
    requires v.task.deadline <= now && Marks(v, op) == []
    ensures Step(v, op).task.deadline <= now
  {
    hide IsValid, SetEnable, ClearEnable, DisabledTest, Quotient;
  }

  lemma MissedMark(v: View, op: Op, now: nat)
    requires v.task.deadline <= now && Marks(v, op) != [] && (op.Pass? ==> now <= op.now)
    ensures !Marks(v, op)[0].Shot?
  {
    hide IsValid, SetEnable, ClearEnable, DisabledTest, Quotient;
  }

  // ---------------------------------------------------------------- counting

  function Shots(log: seq<Mark>): nat
  {
    if log == [] then 0 else (if log[0].Shot? then 1 else 0) + Shots(log[1..])
  }

  lemma {:induction false} ShotsAppend(a: seq<Mark>, b: seq<Mark>)
    ensures Shots(a + b) == Shots(a) + Shots(b)
  {
    if a == [] {
      assert a + b == b;
    } else {
      assert (a + b)[1..] == a[1..] + b;
      ShotsAppend(a[1..], b);
    }
  }

  predicate NoCommands(ops: seq<Op>)
  {
    forall i | 0 <= i < |ops| :: !IsCommand(ops[i]) && !ops[i].ReadCycled?
  }

  predicate NoToggles(ops: seq<Op>)
  {
    forall i | 0 <= i < |ops| :: ops[i].Toggle? ==> !ops[i].hit
  }

  predicate NoTriggers(ops: seq<Op>)
  {
    forall i | 0 <= i < |ops| :: ops[i].Trigger? ==> !ops[i].hit
  }

  /** What one step of an untoggled burst takes from its cycles. */
  lemma StepCounts(v: View, op: Op)
    requires v.task.cycle >= 0 && !v.togg && !IsCommand(op) && !op.ReadCycled? && (op.Toggle? ==> !op.hit)
    ensures var w := Step(v, op);
      && w.task.cycle >= 0 && !w.togg && Shots(Marks(v, op)) + w.task.cycle == v.task.cycle
      && (v.cycled || (v.task.cycle > 0 && w.task.cycle == 0) ==> w.cycled)
  {
    hide IsValid, SetEnable, ClearEnable, DisabledTest;
    if op.Pass? { PassShots(v, op.now); }
  }

  lemma PassShots(v: View, now: nat)
    ensures Shots(Marks(v, Pass(now))) == if Injects(v, now) then 1 else 0
  {
    hide Injects, Consume;
    var a := if v.trig then [Consumed(v.trigDeadline)] else [];
    var b := if Injects(v, now) then [Shot(Consume(v).task.deadline, now, v.task.period)] else [];
    ShotsAppend(a, b);
  }

  /** Conservation: over any number of triggers, the messages injected and the cycles left make up the cycles set. */
  lemma {:induction false} CyclesConserved(v: View, ops: seq<Op>)
    requires v.task.cycle >= 0 && !v.togg && NoToggles(ops) && NoCommands(ops)
    ensures var w := After(v, ops);
      && w.task.cycle >= 0 && Shots(Log(v, ops)) + w.task.cycle == v.task.cycle
      && (v.cycled || (v.task.cycle > 0 && w.task.cycle == 0) ==> w.cycled)
    decreases |ops|
  {
    if ops != [] {
      StepCounts(v, ops[0]);
      CyclesConserved(Step(v, ops[0]), ops[1..]);
      ShotsAppend(Marks(v, ops[0]), Log(Step(v, ops[0]), ops[1..]));
    }
  }

  lemma StepAtRest(v: View, op: Op)
    requires v.task.cycle == 0 && !IsCommand(op)
    ensures Step(v, op).task.cycle == 0 && Shots(Marks(v, op)) == 0
  {
    hide IsValid, SetEnable, ClearEnable, DisabledTest, Quotient;
    if op.Pass? { PassShots(v, op.now); }
  }

  /** A burst without cycles stays silent, whatever triggers and toggles reach it, until the host sets it up anew. */
  lemma {:induction false} NoCyclesNoShots(v: View, ops: seq<Op>)
    requires v.task.cycle == 0 && NoCommands(ops)
    ensures Shots(Log(v, ops)) == 0 && After(v, ops).task.cycle == 0
    decreases |ops|
  {
    if ops != [] {
      StepAtRest(v, ops[0]);
      NoCyclesNoShots(Step(v, ops[0]), ops[1..]);
      ShotsAppend(Marks(v, ops[0]), Log(Step(v, ops[0]), ops[1..]));
    }
  }

  /** With no trigger at all, a burst that has missed its deadline sends nothing more. */
  lemma {:induction false} MissedNeverShoots(v: View, ops: seq<Op>, now: nat)
    requires v.task.deadline <= now && Clock(ops, now) && !v.trig && NoTriggers(ops) && NoCommands(ops)
    ensures Shots(Log(v, ops)) == 0
    decreases |ops|
  {
    if ops != [] {
      var op := ops[0];
      MissedPass(v, op, now);
      assert [] + Log(Step(v, op), ops[1..]) == Log(Step(v, op), ops[1..]);
      MissedNeverShoots(Step(v, op), ops[1..], if op.Pass? then op.now else now);
    }
  }

  lemma MissedPass(v: View, op: Op, now: nat)
    requires v.task.deadline <= now && (op.Pass? ==> now <= op.now)
    requires !v.trig && !IsCommand(op) && (op.Trigger? ==> !op.hit)
    ensures Marks(v, op) == [] && !Step(v, op).trig && Step(v, op).task.deadline <= now
  {
    hide IsValid, SetEnable, ClearEnable, DisabledTest, Quotient;
  }

  // ---------------------------------------------------------------- triggers are used once

  /** How often a trigger was taken over. */
  function Taken(log: seq<Mark>): nat
  {
    if log == [] then 0 else (if log[0].Consumed? then 1 else 0) + Taken(log[1..])
  }

  /** How many of the events are triggers for the burst. */
  function Hits(ops: seq<Op>): nat
  {
    if ops == [] then 0 else (if ops[0].Trigger? && ops[0].hit then 1 else 0) + Hits(ops[1..])
  }

  lemma {:induction false} TakenAppend(a: seq<Mark>, b: seq<Mark>)
    ensures Taken(a + b) == Taken(a) + Taken(b)
  {
    if a == [] {
      assert a + b == b;
    } else {
      assert (a + b)[1..] == a[1..] + b;
      TakenAppend(a[1..], b);
    }
  }

  lemma StepTakes(v: View, op: Op)
    ensures Taken(Marks(v, op)) == if op.Pass? && v.trig then 1 else 0
    ensures op.Pass? ==> !Step(v, op).trig
    ensures Step(v, op).trig <==> !op.Pass? && (v.trig || (op.Trigger? && op.hit))
  {
    if op.Pass? {
      hide Injects, Consume, Passed;
      var a := if v.trig then [Consumed(v.trigDeadline)] else [];
      var b := if Injects(v, op.now) then [Shot(Consume(v).task.deadline, op.now, v.task.period)] else [];
      TakenAppend(a, b);
      if v.trig { TriggerTaken(v, op.now); } else { UntriggeredStays(v, op.now); }
    }
  }

  lemma UntriggeredStays(v: View, now: nat)
    requires !v.trig
    ensures !Passed(v, now).trig
  {
  }

  /** In every run a trigger is taken over at most once: there are no more take-overs than triggers, counting one
      that was pending at first and not one that is pending in the end. */
  lemma {:induction false} TriggersUsedOnce(v: View, ops: seq<Op>)
    ensures Taken(Log(v, ops)) + (if After(v, ops).trig then 1 else 0) <= Hits(ops) + (if v.trig then 1 else 0)
    decreases |ops|
  {
    hide Marks, Step;
    if ops != [] {
      StepTakes(v, ops[0]);
      TriggersUsedOnce(Step(v, ops[0]), ops[1..]);
      TakenAppend(Marks(v, ops[0]), Log(Step(v, ops[0]), ops[1..]));
    }
  }

  /** A pass that takes over a trigger does what the next pass would do with the burst it leaves. */
  lemma TakenPass(v: View, now: nat, ops: seq<Op>)
    requires v.trig && !v.togg
    ensures var w, all := Consume(v), [Pass(now)] + ops;
      Log(v, all) == [Consumed(v.trigDeadline)] + Log(w, all) && After(v, all) == After(w, all)
  {
    hide Verdict, Due, Fired, Stamped, Consume;
    TriggerConsumed(v);
    ConsumedStays(Consume(v));
    ConsumeKeepsPeriod(v);
    OneOp(v, Pass(now), ops);
    OneOp(Consume(v), Pass(now), ops);
  }

  /** What the host and the first trigger do to set a burst going. */
  function SetUp(ioType: bv8, ioIndex: bv8, trigger: nat, toggle: nat, setup: nat, period: nat, n: int, d: nat): seq<Op>
  {
    [Declare(ioType, ioIndex, trigger, toggle), SetParam(setup, period, false), SetCycle(n), Trigger(true, d)]
  }

  /** A burst that is declared, given its times and `n` cycles, and triggered for `d`, then sends the messages for
      `d + setup`, `d + setup + period` and so on, in order and without a gap, one for each cycle. */
  lemma SetUpTrain(v: View, ioType: bv8, ioIndex: bv8, trigger: nat, toggle: nat, setup: nat, period: nat, n: int,
                   d: nat, now: nat, ops: seq<Op>)
    requires !v.trig && !v.togg && NoTriggers(ops) && NoToggles(ops) && NoCommands(ops)
    ensures var all := SetUp(ioType, ioIndex, trigger, toggle, setup, period, n, d) + ([Pass(now)] + ops);
      var log, r := Log(v, all), After(v, all);
      && |log| >= 4 && log[..4] == [Command, Command, Command, Consumed(d)] && Train(log[4..], d + setup, period)
      && (n >= 0 ==> r.task.cycle >= 0 && |log| - 4 + r.task.cycle == n)
      && (n < 0 ==> r.task.cycle == n && r.task.deadline == d + setup + (|log| - 4) * period)
  {
    hide Log, After, Consume, Train, SetUp, NoTriggers, NoToggles, NoCommands;
    var w := AfterSetUp(v, ioType, ioIndex, trigger, toggle, setup, period, n, d, [Pass(now)] + ops);
    var c := Consume(w);
    TriggerConsumed(w);
    TakenPass(w, now, ops);
    PassAndOps(now, ops);
    UndisturbedTrain(c, [Pass(now)] + ops);
    var all := SetUp(ioType, ioIndex, trigger, toggle, setup, period, n, d) + ([Pass(now)] + ops);
    assert Log(v, all)[4..] == Log(c, [Pass(now)] + ops);
  }

  lemma ConsumedStays(v: View)
    requires !v.trig && !v.togg
    ensures Consume(v) == v
  {
  }

  lemma TriggerConsumed(v: View)
    requires v.trig
    ensures var w := Consume(v);
      && !w.trig && w.togg == v.togg && w.task.deadline == v.trigDeadline + v.task.setup
      && w.task.cycle == v.task.cycle && w.task.period == v.task.period
  {
  }

  lemma PassAndOps(now: nat, ops: seq<Op>)
    requires NoTriggers(ops) && NoToggles(ops) && NoCommands(ops)
    ensures NoTriggers([Pass(now)] + ops) && NoToggles([Pass(now)] + ops) && NoCommands([Pass(now)] + ops)
  {
  }

  lemma AfterSetUp(v: View, ioType: bv8, ioIndex: bv8, trigger: nat, toggle: nat, setup: nat, period: nat, n: int,
                   d: nat, rest: seq<Op>) returns (w: View)
    requires !v.trig && !v.togg
    ensures var all := SetUp(ioType, ioIndex, trigger, toggle, setup, period, n, d) + rest;
      Log(v, all) == [Command, Command, Command] + Log(w, rest) && After(v, all) == After(w, rest)
    ensures w.trig && !w.togg && w.trigDeadline == d
    ensures w.task.setup == setup && w.task.period == period && w.task.cycle == n
  {
    hide Log, After, IsValid;
    var ops := SetUp(ioType, ioIndex, trigger, toggle, setup, period, n, d);
    var a := Step(v, ops[0]);
    var b := Step(a, ops[1]);
    var c := Step(b, ops[2]);
    w := Step(c, ops[3]);
    DeclaredIsValid();
    OneOp(v, ops[0], [ops[1]] + ([ops[2]] + ([ops[3]] + rest)));
    OneOp(a, ops[1], [ops[2]] + ([ops[3]] + rest));
    OneOp(b, ops[2], [ops[3]] + rest);
    OneOp(c, ops[3], rest);
    assert ops + rest == [ops[0]] + ([ops[1]] + ([ops[2]] + ([ops[3]] + rest)));
  }

  lemma OneOp(v: View, op: Op, ops: seq<Op>)
    ensures Log(v, [op] + ops) == Marks(v, op) + Log(Step(v, op), ops)
    ensures After(v, [op] + ops) == After(Step(v, op), ops)
  {
    assert ([op] + ops)[1..] == ops;
  }

  lemma DeclaredIsValid()
    ensures IsValid(CTL_VALID)
  {
  }

  /** A burst that was removed sends nothing until the host sets it up anew. */
  lemma RemovedIsSilent(v: View, ops: seq<Op>)
    requires NoCommands(ops)
    ensures Shots(Log(v, [Remove] + ops)) == 0
  {
    var all := [Remove] + ops;
    assert all[1..] == ops && Log(v, all) == [Command] + Log(Step(v, Remove), ops);
    NoCyclesNoShots(Step(v, Remove), ops);
  }

  // ---------------------------------------------------------------- what a toggle leaves

  /** The messages from `d` on, one period apart. */
  ghost predicate Train(log: seq<Mark>, d: nat, period: nat)
  {
    forall i | 0 <= i < |log| :: log[i].Shot? && log[i].deadline == d + i * period
  }

  /** `n` is the number of deadlines up to `last`, both ends included. */
  ghost predicate AllUpTo(n: nat, d: nat, period: nat, last: nat)
  {
    forall i: nat :: d + i * period <= last <==> i < n
  }

  /** An undisturbed burst injects its deadlines in order and leaves none out, one for each cycle;
      an endless one never comes to an end. */
  lemma {:induction false} UndisturbedTrain(v: View, ops: seq<Op>)
    requires !v.trig && !v.togg && NoTriggers(ops) && NoToggles(ops) && NoCommands(ops)
    ensures Train(Log(v, ops), v.task.deadline, v.task.period)
    ensures v.task.cycle >= 0 ==>
      After(v, ops).task.cycle >= 0 && |Log(v, ops)| + After(v, ops).task.cycle == v.task.cycle
    ensures v.task.cycle < 0 ==>
      && After(v, ops).task.cycle == v.task.cycle
      && After(v, ops).task.deadline == v.task.deadline + |Log(v, ops)| * v.task.period
    decreases |ops|
  {
    hide Train, Step, Marks, IsCommand;
    if ops == [] {
      NoneLeft([], v.task.deadline, v.task.period);
    } else {
      var w := Step(v, ops[0]);
      UndisturbedStep(v, ops[0]);
      UndisturbedTrain(w, ops[1..]);
      if Marks(v, ops[0]) == [] {
        assert Log(v, ops) == Log(w, ops[1..]);
      } else {
        var rest := Log(w, ops[1..]);
        assert Marks(v, ops[0]) == [Marks(v, ops[0])[0]];
        assert (|rest| + 1) * v.task.period == |rest| * v.task.period + v.task.period;
        if w.task.cycle == 0 {
          NoneLeft(rest, w.task.deadline, w.task.period);
        }
        TrainFront(Marks(v, ops[0])[0], rest, v.task.deadline, v.task.period);
      }
    }
  }

  lemma NoneLeft(log: seq<Mark>, d: nat, period: nat)
    requires |log| <= 0
    ensures log == [] && Train(log, d, period)
  {
  }

  lemma UndisturbedStep(v: View, op: Op)
    requires !v.trig && !v.togg && !IsCommand(op) && ((op.Trigger? || op.Toggle?) ==> !op.hit)
    ensures var w := Step(v, op);
      && !w.trig && !w.togg && w.task.period == v.task.period
      && if Marks(v, op) == [] then w.task.cycle == v.task.cycle && w.task.deadline == v.task.deadline
         else && |Marks(v, op)| == 1 && Marks(v, op)[0].Shot? && Marks(v, op)[0].deadline == v.task.deadline
              && v.task.cycle != 0 && w.task.cycle == (if v.task.cycle > 0 then v.task.cycle - 1 else v.task.cycle)
              && (w.task.cycle != 0 ==> w.task.deadline == v.task.deadline + v.task.period)
  {
    hide IsValid, SetEnable, ClearEnable, DisabledTest;
  }

  lemma TrainFront(m: Mark, log: seq<Mark>, d: nat, period: nat)
    requires m.Shot? && m.deadline == d && (log != [] ==> Train(log, d + period, period))
    ensures Train([m] + log, d, period)
  {
    var s := [m] + log;
    forall i | 0 <= i < |s|
      ensures s[i].Shot? && s[i].deadline == d + i * period
    {
      if i > 0 {
        assert s[i] == log[i - 1];
        assert (i - 1) * period + period == i * period;
      }
    }
  }

  /** The number of deadlines from `d` on, one period apart, that are not after `end`. */
  lemma LastDeadline(d: nat, end: nat, period: nat, i: nat)
    requires period > 0 && d <= end
    ensures d + i * period <= end <==> i <= (end - d) / period
  {
    var q := (end - d) / period;
    if i <= q {
      assert i * period <= q * period;
    } else {
      assert (q + 1) * period <= i * period;
    }
  }

  lemma QuotientIsDivision(a: nat, b: nat)
    requires b > 0
    ensures (if a < b then 1 else Quotient(a, b) + 1) == a / b + 1
  {
  }

  lemma TakenOver(v: View)
    requires v.togg && !v.trig && 0 < v.task.deadline < v.toggDeadline && v.task.cycle != 0 && v.task.period > 0
    ensures var w := Consume(v);
      && !w.trig && !w.togg && w.task.deadline == v.task.deadline && w.task.period == v.task.period
      && w.task.cycle == (v.toggDeadline - v.task.deadline) / v.task.period + 1
  {
    hide Quotient;
    QuotientIsDivision(v.toggDeadline - v.task.deadline, v.task.period);
  }

  /** A toggle that is taken over before its deadline leaves exactly the deadlines up to it:
      every message injected is one of them, in order, and when the burst has ended none of them is missing. */
  lemma ToggleLeaves(v: View, now: nat, ops: seq<Op>)
    requires v.togg && !v.trig && 0 < v.task.deadline < v.toggDeadline && v.task.cycle != 0 && v.task.period > 0
    requires NoTriggers(ops) && NoToggles(ops) && NoCommands(ops)
    ensures var d, p, log := v.task.deadline, v.task.period, Log(v, [Pass(now)] + ops);
      && Train(log, d, p)
      && (forall i: nat | i < |log| :: d + i * p <= v.toggDeadline)
      && (After(v, [Pass(now)] + ops).task.cycle == 0 ==> AllUpTo(|log|, d, p, v.toggDeadline))
  {
    var w := Consume(v);
    var all := [Pass(now)] + ops;
    TakenOver(v);
    SamePass(v, w, now, ops);
    forall i | 0 <= i < |all|
      ensures !(all[i].Trigger? && all[i].hit) && !(all[i].Toggle? && all[i].hit)
      ensures !IsCommand(all[i]) && !all[i].ReadCycled?
    {
      if i > 0 { assert all[i] == ops[i - 1]; }
    }
    UndisturbedTrain(w, all);
    forall i: nat
      ensures v.task.deadline + i * v.task.period <= v.toggDeadline <==> i < w.task.cycle
    {
      LastDeadline(v.task.deadline, v.toggDeadline, v.task.period, i);
    }
  }

  /** A pass that takes over a toggle does what the next pass would do with the burst it leaves. */
  lemma SamePass(v: View, w: View, now: nat, ops: seq<Op>)
    requires !v.trig && w == Consume(v) && !w.trig && !w.togg
    ensures Log(v, [Pass(now)] + ops) == Log(w, [Pass(now)] + ops)
    ensures After(v, [Pass(now)] + ops) == After(w, [Pass(now)] + ops)
  {
    var all := [Pass(now)] + ops;
    assert all[1..] == ops;
    assert Consume(w) == w;
    ConsumeKeepsPeriod(v);
  }

  /** A toggle whose deadline is not after the next deadline, or that finds none, ends the burst for good. */
  lemma ToggleEnds(v: View, now: nat, ops: seq<Op>)
    requires v.togg && !v.trig && NoCommands(ops)
    requires v.task.deadline == 0 || v.toggDeadline <= v.task.deadline
    ensures Shots(Log(v, [Pass(now)] + ops)) == 0 && After(v, [Pass(now)] + ops).task.cycle == 0
  {
    var all := [Pass(now)] + ops;
    var w := Consume(v);
    SamePass(v, w, now, ops);
    forall i | 0 <= i < |all|
      ensures !IsCommand(all[i]) && !all[i].ReadCycled?
    {
      if i > 0 { assert all[i] == ops[i - 1]; }
    }
    NoCyclesNoShots(w, all);
  }

  // ---------------------------------------------------------------- the enable flag

  predicate SameTasks(t: Task, s: Task)
  {
    t == s.(flag := t.flag) && IsValid(t.flag) == IsValid(s.flag)
  }

  predicate SameButEnable(u: View, v: View)
  {
    u == v.(task := u.task) && SameTasks(u.task, v.task)
  }

  lemma EnableKeepsValid(flag: bv32)
    ensures IsValid(SetEnable(flag)) == IsValid(flag) && IsValid(ClearEnable(flag)) == IsValid(flag)
  {
  }

  lemma SameStep(u: View, v: View, op: Op)
    requires SameButEnable(u, v)
    ensures SameButEnable(Step(u, op), Step(v, op)) && Marks(u, op) == Marks(v, op)
  {
    hide IsValid, Consume, Passed, Injects, Params, Cycles, DeclaredTask, RemovedTask, Enabled;
    if op.Pass? {
      SamePassed(u, v, op.now);
    } else {
      SameTask(u.task, v.task, op);
    }
  }

  lemma SameTask(t: Task, s: Task, op: Op)
    requires SameTasks(t, s)
    ensures op.SetParam? ==> SameTasks(Params(t, op.setup, op.period, op.add), Params(s, op.setup, op.period, op.add))
    ensures op.SetCycle? ==> SameTasks(Cycles(t, op.cycle), Cycles(s, op.cycle))
    ensures op.Declare? ==> SameTasks(DeclaredTask(t, op.ioType, op.ioIndex, op.trigger, op.toggle),
                                      DeclaredTask(s, op.ioType, op.ioIndex, op.trigger, op.toggle))
    ensures op.Remove? ==> SameTasks(RemovedTask(t), RemovedTask(s))
    ensures op.Enable? ==> SameTasks(Enabled(t, op.on), Enabled(s, op.on))
  {
    hide IsValid, SetEnable, ClearEnable;
    EnableKeepsValid(t.flag);
    EnableKeepsValid(s.flag);
  }

  lemma SameConsumed(u: View, v: View)
    requires SameButEnable(u, v)
    ensures SameButEnable(Consume(u), Consume(v))
  {
    hide IsValid, AfterTrigger, AfterToggle, OverAlready;
    SameTaken(u.task, v.task, v.trigDeadline, v.toggDeadline);
  }

  lemma SameTaken(t: Task, s: Task, d: nat, e: nat)
    requires SameTasks(t, s)
    ensures SameTasks(AfterTrigger(t, d), AfterTrigger(s, d)) && SameTasks(AfterToggle(t, e), AfterToggle(s, e))
    ensures OverAlready(t, e) == OverAlready(s, e)
  {
    hide IsValid, Quotient;
  }

  lemma SamePassed(u: View, v: View, now: nat)
    requires SameButEnable(u, v)
    ensures SameButEnable(Passed(u, now), Passed(v, now)) && Injects(u, now) == Injects(v, now)
    ensures Consume(u).task.deadline == Consume(v).task.deadline
  {
    hide IsValid, Consume, DisabledTest;
    SameConsumed(u, v);
    NeverDisabled(Consume(u).task.flag);
    NeverDisabled(Consume(v).task.flag);
  }

  /** A disabled burst injects just what an enabled one does. */
  lemma {:induction false} EnableHasNoEffect(u: View, v: View, ops: seq<Op>)
    requires SameButEnable(u, v)
    ensures Log(u, ops) == Log(v, ops) && SameButEnable(After(u, ops), After(v, ops))
    decreases |ops|
  {
    if ops != [] {
      SameStep(u, v, ops[0]);
      EnableHasNoEffect(Step(u, ops[0]), Step(v, ops[0]), ops[1..]);
    }
  }

  lemma EnableIsClear()
    ensures IsValid(CTL_VALID) && CTL_VALID & CTL_EN == 0
  {
  }

  /** A declared burst that is not enabled injects on its trigger like any other. */
  lemma DisabledBurstInjects(v: View, now: nat)
    requires v.task.flag == CTL_VALID && v.trig && v.task.cycle != 0 && now < v.trigDeadline + v.task.setup
    ensures v.task.flag & CTL_EN == 0 && Injects(v, now) && Result(v, now) == Ok
  {
    hide IsValid;
    EnableIsClear();
    TriggerInjects(v, now);
  }
}
