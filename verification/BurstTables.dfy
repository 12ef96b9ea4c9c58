/** The configuration tables of the burst generator: which event is declared for which bursts. */
module BurstTables {
  import opened BurstMasks

  const N_CONFIGS: nat := 64

  /** An event and the bursts it is declared for; id 0 marks a free slot. */
  datatype Config = Config(id: nat, bursts: bv32)

  /** The last of the first `n` slots that holds event `e`, or `|t|`. */
  function LastMatch(t: seq<Config>, e: nat, n: nat): (p: nat)
    requires n <= |t|
    ensures p < n || p == |t|
    ensures p < n ==> t[p].id == e
    ensures forall i | 0 <= i < n && (p < i || p == |t|) :: t[i].id != e
  {
    if n == 0 then |t| else if t[n - 1].id == e then n - 1 else LastMatch(t, e, n - 1)
  }

  /** The first free slot from `i` on, or `|t|`. */
  function FirstFree(t: seq<Config>, i: nat): (p: nat)
    requires i <= |t|
    ensures i <= p <= |t|
    ensures p < |t| ==> t[p].id == 0
    ensures forall j | i <= j < p :: t[j].id != 0
    decreases |t| - i
  {
    if i == |t| then |t| else if t[i].id == 0 then i else FirstFree(t, i + 1)
  }

  /** Where `updateConfigs` looks: the slot of the event, else the first free slot, else nowhere. */
  function Position(t: seq<Config>, e: nat): (p: nat)
    ensures p <= |t|
  {
    var p := LastMatch(t, e, |t|);
    if p < |t| then p else FirstFree(t, 0)
  }

  function Changed(c: Config, e: nat, id: nat, add: bool): Config
    requires IsBurst(id)
  {
    if add then Config(e, With(c.bursts, id))
    else Config(if Without(c.bursts, id) == 0 then 0 else c.id, Without(c.bursts, id))
  }

  /** The table after `updateConfigs`. */
  function Updated(t: seq<Config>, e: nat, id: nat, add: bool): (u: seq<Config>)
    requires id == 0 || IsBurst(id)
    ensures |u| == |t|
  {
    var p := Position(t, e);
    if e == 0 || id == 0 || p == |t| then t else t[p := Changed(t[p], e, id, add)]
  }

  /** `updateConfigs`: gives back the slot it used, or 64 if there is none. */
  method UpdateConfigs(configs: array?<Config>, e: nat, id: nat, add: bool) returns (pos: nat)
    requires configs != null ==> configs.Length == N_CONFIGS
    requires id == 0 || IsBurst(id)
    modifies configs
    ensures configs != null ==> configs[..] == Updated(old(configs[..]), e, id, add)
    ensures pos == if configs == null || e == 0 || id == 0 then N_CONFIGS else Position(old(configs[..]), e)
  {
    hide With, Without, IsBurst;
    pos := N_CONFIGS;
    if configs == null { return; }
    if e == 0 || id == 0 { return; }
    pos := FindSlot(configs, e);
    if pos == N_CONFIGS { return; }
    ghost var t := configs[..];
    if add {
      configs[pos] := Config(configs[pos].id, With(configs[pos].bursts, id));
      configs[pos] := Config(e, configs[pos].bursts);
    } else {
      configs[pos] := Config(configs[pos].id, Without(configs[pos].bursts, id));
      if configs[pos].bursts == 0 {
        configs[pos] := Config(0, configs[pos].bursts);
      }
    }
    assert configs[..] == t[pos := Changed(t[pos], e, id, add)];
  }

  /** The two searches of `updateConfigs`. */
  method FindSlot(configs: array<Config>, e: nat) returns (pos: nat)
    requires configs.Length == N_CONFIGS
    ensures pos == Position(configs[..], e)
  {
    ghost var t := configs[..];
    pos := N_CONFIGS;
    var i := 0;
    while i < N_CONFIGS
      invariant 0 <= i <= N_CONFIGS
      invariant pos == LastMatch(t, e, i)
    {
      if configs[i].id == e { pos := i; }
      i := i + 1;
    }
    i := 0;
    while pos == N_CONFIGS && i < N_CONFIGS
      invariant pos <= N_CONFIGS
      invariant if pos < N_CONFIGS then pos == Position(t, e)
        else 0 <= i <= N_CONFIGS && LastMatch(t, e, |t|) == |t| && FirstFree(t, 0) == FirstFree(t, i)
      decreases N_CONFIGS - i
    {
      if configs[i].id == 0 {
        pos := i;
        i := N_CONFIGS;
      }
      i := i + 1;
    }
  }

  // ---------------------------------------------------------------- what a table means

  /** Event `e` is declared for burst `b`. */
  ghost predicate Holds(t: seq<Config>, e: nat, b: nat)
    requires IsBurst(b)
  {
    exists i :: 0 <= i < |t| && t[i].id == e && Has(t[i].bursts, b)
  }

  /** One slot for an event, no bits beyond the bursts, and a slot is free if and only if its mask is empty. */
  ghost predicate WellFormed(t: seq<Config>)
  {
    && |t| == N_CONFIGS
    && (forall i, j | 0 <= i < j < |t| :: t[i].id == t[j].id ==> t[i].id == 0)
    && (forall i | 0 <= i < |t| :: t[i].id == 0 <==> t[i].bursts == 0)
    && (forall i | 0 <= i < |t| :: Small(t[i].bursts))
  }

  /** The table is the inverse of `f`, which gives the event of every burst, or 0. */
  ghost predicate Inverse(t: seq<Config>, f: seq<nat>)
    requires |f| == N_BURSTS
  {
    forall e, b | e != 0 && IsBurst(b) :: Holds(t, e, b) <==> f[b] == e
  }

  lemma FreeHasNone(t: seq<Config>, i: nat, b: nat)
    requires WellFormed(t) && i < |t| && t[i].id == 0 && IsBurst(b)
    ensures !Has(t[i].bursts, b)
  {
    hide Has;
    HasNone(b);
  }

  /** In a well-formed table an event's bursts are all in the slot that a search finds. */
  lemma HoldsAt(t: seq<Config>, e: nat, b: nat, p: nat)
    requires WellFormed(t) && e != 0 && IsBurst(b) && p == LastMatch(t, e, |t|)
    ensures Holds(t, e, b) <==> p < |t| && Has(t[p].bursts, b)
  {
    hide Has, Small;
    if p < |t| {
      assert t[p].id == e;
      if Holds(t, e, b) {
        var i :| 0 <= i < |t| && t[i].id == e && Has(t[i].bursts, b);
        assert i == p;
      }
    }
  }

  /** A slot other than `p` is not touched, and an event other than that of slot `p` keeps its bursts. */
  lemma HoldsElsewhere(t: seq<Config>, p: nat, c: Config, e: nat, b: nat)
    requires p < |t| && IsBurst(b) && e != t[p].id && e != c.id
    ensures Holds(t[p := c], e, b) <==> Holds(t, e, b)
  {
    hide Has;
    var u := t[p := c];
    if Holds(t, e, b) {
      var i :| 0 <= i < |t| && t[i].id == e && Has(t[i].bursts, b);
      assert u[i] == t[i];
    }
    if Holds(u, e, b) {
      var i :| 0 <= i < |u| && u[i].id == e && Has(u[i].bursts, b);
      assert u[i] == t[i];
    }
  }

  /** The slot that an update of event `e` uses holds `e`, or is free and no slot holds `e`. */
  lemma SlotUsed(t: seq<Config>, e: nat, p: nat)
    requires WellFormed(t) && e != 0 && p == Position(t, e) < |t|
    ensures t[p].id == e || t[p].id == 0
    ensures forall i | 0 <= i < |t| && i != p :: t[i].id != e
  {
    hide Small;
    if LastMatch(t, e, |t|) < |t| {
      assert t[p].id == e;
    }
  }

  lemma StaysWellFormed(t: seq<Config>, e: nat, id: nat, add: bool)
    requires WellFormed(t) && e != 0 && IsBurst(id)
    ensures WellFormed(Updated(t, e, id, add))
  {
    hide Small, With, Without;
    var p := Position(t, e);
    if p < |t| {
      SlotUsed(t, e, p);
      StaysSmall(t[p].bursts, id);
      WithIsNotEmpty(t[p].bursts, id);
      FreeStaysFree(t[p], id);
      ReplacedIsWellFormed(t, e, p, Changed(t[p], e, id, add));
    }
  }

  lemma FreeStaysFree(c: Config, id: nat)
    requires IsBurst(id) && (c.id == 0 ==> c.bursts == 0)
    ensures c.id == 0 ==> Without(c.bursts, id) == 0
  {
    hide IsBurst, Bit;
    WithoutEmpty(id);
  }

  lemma ReplacedIsWellFormed(t: seq<Config>, e: nat, p: nat, c: Config)
    requires WellFormed(t) && p < |t| && Small(c.bursts)
    requires c.id == 0 <==> c.bursts == 0
    requires c.id == e || c.id == 0
    requires forall i | 0 <= i < |t| && i != p :: t[i].id != e
    ensures WellFormed(t[p := c])
  {
    hide Small;
    var u := t[p := c];
    forall i, j | 0 <= i < j < |u|
      ensures u[i].id == u[j].id ==> u[i].id == 0
    {
      if i != p && j != p {
        assert u[i] == t[i] && u[j] == t[j];
      }
    }
  }

  /** Adding declares the event for the burst and changes nothing else; removing takes back just that. */
  lemma UpdateMeans(t: seq<Config>, e: nat, id: nat, add: bool, x: nat, b: nat)
    requires WellFormed(t) && e != 0 && x != 0 && IsBurst(id) && IsBurst(b) && Position(t, e) < |t|
    ensures Holds(Updated(t, e, id, add), x, b)
       <==> if x == e && b == id then add else Holds(t, x, b)
  {
    hide Has, Small, With, Without;
    var p := Position(t, e);
    var c := Changed(t[p], e, id, add);
    SlotUsed(t, e, p);
    if x != e {
      HoldsElsewhere(t, p, c, x, b);
    } else {
      StaysWellFormed(t, e, id, add);
      HasWith(t[p].bursts, id, b);
      FreeStaysFree(t[p], id);
      EventUpdated(t, e, p, c, b);
      SlotHolds(t, e, p, b);
    }
  }

  /** Before the update, what slot `p` has is what the event has. */
  lemma SlotHolds(t: seq<Config>, e: nat, p: nat, b: nat)
    requires WellFormed(t) && e != 0 && IsBurst(b) && p == Position(t, e) < |t|
    ensures Holds(t, e, b) <==> Has(t[p].bursts, b)
  {
    hide Has, Small;
    HoldsAt(t, e, b, LastMatch(t, e, |t|));
    if LastMatch(t, e, |t|) == |t| {
      FreeHasNone(t, p, b);
    }
  }

  /** After the update, what slot `p` has is what the event has. */
  lemma EventUpdated(t: seq<Config>, e: nat, p: nat, c: Config, b: nat)
    requires p < |t| && e != 0 && IsBurst(b)
    requires forall i | 0 <= i < |t| && i != p :: t[i].id != e
    requires c.id == e || c.bursts == 0
    ensures Holds(t[p := c], e, b) <==> Has(c.bursts, b)
  {
    hide Has;
    var u := t[p := c];
    HasNone(b);
    if Has(c.bursts, b) {
      assert u[p] == c;
    }
    if Holds(u, e, b) {
      var i :| 0 <= i < |u| && u[i].id == e && Has(u[i].bursts, b);
      assert i == p;
    }
  }

  // ---------------------------------------------------------------- the table and the declarations

  /** A table that is the inverse of the declarations always has a free slot: there are fewer bursts than slots. */
  lemma NeverFull(t: seq<Config>, f: seq<nat>)
    requires WellFormed(t) && |f| == N_BURSTS && Inverse(t, f)
    ensures FirstFree(t, 0) < |t|
  {
    hide Has, Small;
    if FirstFree(t, 0) == |t| {
      var bursts := Witnesses(t, f, |t|);
      Few(bursts);
    }
  }

  /** Every one of the first `n` slots, none of them free, has a burst of its own. */
  lemma {:induction false} Witnesses(t: seq<Config>, f: seq<nat>, n: nat) returns (bursts: set<nat>)
    requires WellFormed(t) && |f| == N_BURSTS && Inverse(t, f) && n <= |t|
    requires forall i | 0 <= i < n :: t[i].id != 0
    ensures |bursts| == n
    ensures forall b | b in bursts :: IsBurst(b) && exists i :: 0 <= i < n && f[b] == t[i].id
  {
    hide Has, Small;
    if n == 0 {
      bursts := {};
    } else {
      var rest := Witnesses(t, f, n - 1);
      assert t[n - 1].bursts != 0;
      var b := SomeBurst(t[n - 1].bursts);
      assert Holds(t, t[n - 1].id, b);
      assert f[b] == t[n - 1].id;
      assert b !in rest;
      bursts := rest + {b};
    }
  }

  lemma Few(bursts: set<nat>)
    requires forall b | b in bursts :: IsBurst(b)
    ensures |bursts| < N_BURSTS
  {
    var all := {1, 2, 3, 4, 5, 6, 7, 8, 9, 10, 11, 12, 13, 14, 15, 16};
    assert bursts <= all;
    SubsetSize(bursts, all);
  }

  lemma {:induction false} SubsetSize(a: set<nat>, b: set<nat>)
    requires a <= b
    ensures |a| <= |b|
  {
    if a != {} {
      var x :| x in a;
      SubsetSize(a - {x}, b - {x});
    }
  }

  /** An update in a table that is the inverse of the declarations always finds a slot. */
  lemma AlwaysSlot(t: seq<Config>, f: seq<nat>, e: nat)
    requires WellFormed(t) && |f| == N_BURSTS && Inverse(t, f)
    ensures Position(t, e) < |t|
  {
    hide Has, Small;
    NeverFull(t, f);
  }

  /** What a declaration does to a table: nothing if there is no event. */
  function Declared(t: seq<Config>, e: nat, id: nat): seq<Config>
    requires IsBurst(id)
  {
    if e != 0 then Updated(t, e, id, true) else t
  }

  function Withdrawn(t: seq<Config>, e: nat, id: nat): seq<Config>
    requires IsBurst(id)
  {
    if e != 0 then Updated(t, e, id, false) else t
  }

  /** Declaring event `e` for a burst keeps the table the inverse of the declarations
      exactly if the burst had no event before, or had this one. */
  lemma DeclareKeepsInverse(t: seq<Config>, f: seq<nat>, e: nat, id: nat)
    requires WellFormed(t) && |f| == N_BURSTS && Inverse(t, f) && IsBurst(id)
    ensures WellFormed(Declared(t, e, id))
    ensures Inverse(Declared(t, e, id), f[id := e]) <==> f[id] == 0 || f[id] == e
  {
    hide Has, Small, Updated;
    var u, g := Declared(t, e, id), f[id := e];
    if e != 0 {
      StaysWellFormed(t, e, id, true);
      AlwaysSlot(t, f, e);
    }
    if f[id] == 0 || f[id] == e {
      forall x, b | x != 0 && IsBurst(b)
        ensures Holds(u, x, b) <==> g[b] == x
      {
        if e != 0 { UpdateMeans(t, e, id, true, x, b); }
      }
    } else {
      if e != 0 { UpdateMeans(t, e, id, true, f[id], id); }
      assert Holds(u, f[id], id) && g[id] != f[id];
    }
  }

  /** Withdrawing the event that is declared for a burst always keeps it. */
  lemma WithdrawKeepsInverse(t: seq<Config>, f: seq<nat>, id: nat)
    requires WellFormed(t) && |f| == N_BURSTS && Inverse(t, f) && IsBurst(id)
    ensures WellFormed(Withdrawn(t, f[id], id))
    ensures Inverse(Withdrawn(t, f[id], id), f[id := 0])
  {
    hide Has, Small, Updated;
    var e := f[id];
    var u, g := Withdrawn(t, e, id), f[id := 0];
    if e != 0 {
      StaysWellFormed(t, e, id, false);
      AlwaysSlot(t, f, e);
    }
    forall x, b | x != 0 && IsBurst(b)
      ensures Holds(u, x, b) <==> g[b] == x
    {
      if e != 0 { UpdateMeans(t, e, id, false, x, b); }
    }
  }

  /** A non-zero event finds a slot exactly if some burst declares it, and then selects just those bursts. */
  lemma EventSelects(t: seq<Config>, f: seq<nat>, e: nat)
    requires WellFormed(t) && |f| == N_BURSTS && Inverse(t, f) && e != 0
    ensures LastMatch(t, e, |t|) < |t| <==> exists b :: IsBurst(b) && f[b] == e
    ensures LastMatch(t, e, |t|) < |t| ==>
      forall b | IsBurst(b) :: Has(t[LastMatch(t, e, |t|)].bursts, b) <==> f[b] == e
  {
    hide Has, Small;
    var p := LastMatch(t, e, |t|);
    forall b | IsBurst(b)
      ensures f[b] == e <==> p < |t| && Has(t[p].bursts, b)
    {
      HoldsAt(t, e, b, p);
    }
    if p < |t| {
      var b := SomeBurst(t[p].bursts);
      assert f[b] == e;
    }
  }

  /** Event 0 always finds a free slot, and selects no burst. */
  lemma EventZero(t: seq<Config>, f: seq<nat>)
    requires WellFormed(t) && |f| == N_BURSTS && Inverse(t, f)
    ensures LastMatch(t, 0, |t|) < |t| && t[LastMatch(t, 0, |t|)].bursts == 0
  {
    hide Has, Small;
    NeverFull(t, f);
  }
}
