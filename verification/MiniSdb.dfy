/** The search of the self-describing bus: a tree of crossbars, walked in preorder with early exit. */
module MiniSdb {

  const WORD: nat := 0x1_0000_0000
  const ERROR_NOT_FOUND: nat := 0xffff_fffe
  const NO_MSI: nat := 0xdead_bee3
  const OWN_MSI: bv32 := 0x8000_0000

  /** What identifies a record: vendor (low word) and device. */
  datatype Key = Key(vendor: nat, device: nat)

  datatype Record =
    | Interconnect
    | Device(key: Key, first: nat, last: nat)
    | Bridge(key: Key, first: nat, last: nat, child: Bus)
    | Msi(key: Key, first: nat, last: nat, flags: bv32)
    | Empty

  /** A crossbar: its records in order. */
  datatype Bus = Bus(records: seq<Record>)

  datatype Location = Location(sdb: Record, adr: nat, msiFirst: nat, msiLast: nat)

  /** 32-bit addition. */
  function Add32(a: nat, b: nat): nat
  {
    (a + b) % WORD
  }

  predicate IsOwn(r: Record)
  {
    r.Msi? && r.flags & OWN_MSI != 0
  }

  predicate Matches(r: Record, key: Key)
  {
    (r.Device? || r.Bridge? || r.Msi?) && r.key == key
  }

  /** The format: a crossbar begins with its interconnect record. */
  predicate HeaderFirst(bus: Bus)
  {
    && bus.records != [] && bus.records[0].Interconnect?
    && forall i | 0 <= i < |bus.records| :: bus.records[i].Bridge? ==> HeaderFirst(bus.records[i].child)
  }

  // ---------------------------------------------------------------- the MSI address of a crossbar

  function OwnCount(records: seq<Record>): nat
  {
    if records == [] then 0 else (if IsOwn(records[0]) then 1 else 0) + OwnCount(records[1..])
  }

  /** A crossbar with two MSI records of its own is taken as an error. */
  predicate Malformed(bus: Bus)
  {
    OwnCount(bus.records) > 1
  }

  /** How a crossbar can be reached by messages: not at all by itself, by an unconnected slave, or at an address. */
  datatype Own = None | Unconnected | At(adr: nat)

  function OwnOfRecord(r: Record): Own
    requires r.Msi?
  {
    if r.key == Key(0, 0) then Unconnected else At(r.first)
  }

  function OwnOf(records: seq<Record>): Own
  {
    if records == [] then None else if IsOwn(records[0]) then OwnOfRecord(records[0]) else OwnOf(records[1..])
  }

  /** The MSI address one crossbar further down. */
  function MsiStep(msi: nat, own: Own): nat
  {
    match own
    case None => msi
    case Unconnected => NO_MSI
    case At(adr) => if msi == NO_MSI then NO_MSI else Add32(msi, adr)
  }

  /** Record `i` is an MSI record of the crossbar's own. */
  predicate OwnAt(records: seq<Record>, i: nat)
  {
    i < |records| && records[i].Msi? && records[i].flags & 0x8000_0000 != 0
  }

  ghost predicate TwoOwnRecords(records: seq<Record>)
  {
    exists i: nat, j: nat :: i < j && OwnAt(records, i) && OwnAt(records, j)
  }

  lemma {:induction false} OwnCountIs(records: seq<Record>)
    ensures OwnCount(records) >= 1 <==> exists i: nat :: OwnAt(records, i)
    ensures OwnCount(records) >= 2 <==> TwoOwnRecords(records)
  {
    if records != [] {
      var rest := records[1..];
      OwnCountIs(rest);
      OwnIs(records);
      forall i: nat ensures OwnAt(rest, i) <==> OwnAt(records, i + 1) { OwnNext(records, i); }
      if exists i: nat :: OwnAt(rest, i) {
        var i: nat :| OwnAt(rest, i);
        assert OwnAt(records, i + 1);
      }
      if TwoOwnRecords(rest) {
        var i: nat, j: nat :| i < j && OwnAt(rest, i) && OwnAt(rest, j);
        assert OwnAt(records, i + 1) && OwnAt(records, j + 1);
      }
      if i: nat :| OwnAt(records, i) && i > 0 {
        assert OwnAt(rest, i - 1);
      }
      if TwoOwnRecords(records) {
        var i: nat, j: nat :| i < j && OwnAt(records, i) && OwnAt(records, j);
        assert OwnAt(rest, j - 1);
        if i > 0 { assert OwnAt(rest, i - 1); }
      }
    }
  }

  lemma OwnIs(records: seq<Record>)
    requires records != []
    ensures IsOwn(records[0]) <==> OwnAt(records, 0)
  {
  }

  lemma OwnNext(records: seq<Record>, i: nat)
    requires records != []
    ensures OwnAt(records[1..], i) <==> OwnAt(records, i + 1)
  {
  }

  /** A crossbar is malformed if and only if two of its records are MSI records of its own. */
  lemma MalformedIs(bus: Bus)
    ensures Malformed(bus) <==> TwoOwnRecords(bus.records)
  {
    OwnCountIs(bus.records);
  }

  /** What the only own MSI record of a crossbar makes of it: an unconnected slave, or its first address. */
  lemma {:induction false} OwnOfIs(records: seq<Record>, i: nat)
    requires OwnCount(records) <= 1
    ensures OwnAt(records, i) ==>
      OwnOf(records) == if records[i].key.vendor == 0 && records[i].key.device == 0 then Unconnected
                        else At(records[i].first)
    ensures (forall j: nat :: !OwnAt(records, j)) ==> OwnOf(records) == None
  {
    if records != [] {
      OwnCountIs(records[1..]);
      OwnIs(records);
      forall j: nat ensures OwnAt(records[1..], j) <==> OwnAt(records, j + 1) { OwnNext(records, j); }
      if i > 0 { OwnOfIs(records[1..], i - 1); } else { OwnOfIs(records[1..], 0); }
    }
  }

  // ---------------------------------------------------------------- the search as it runs

  /** The array after the search, and the number of entries found. */
  datatype Result = Result(found: seq<Location>, idx: nat)

  function Search(bus: Bus, found: seq<Location>, idx: nat, base: nat, msi: nat, last: nat, qty: nat, key: Key)
    : (r: Result)
    requires HeaderFirst(bus) && qty <= |found|
    ensures |r.found| == |found| && (idx <= qty ==> r.idx <= qty)
    decreases bus, 1, 0
  {
    if Malformed(bus) then Result(found, 0)
    else Scan(bus, 0, found, idx, base, MsiStep(msi, OwnOf(bus.records)), last, qty, key)
  }

  /** One record: it is entered if it matches, and then what is behind it is searched. */
  function Look(r: Record, found: seq<Location>, idx: nat, base: nat, msi: nat, last: nat, qty: nat, key: Key)
    : (res: Result)
    requires r.Bridge? ==> HeaderFirst(r.child)
    requires qty <= |found| && (Matches(r, key) ==> idx < qty)
    ensures |res.found| == |found| && (idx <= qty ==> res.idx <= qty)
    decreases r, 2, 0
  {
    var f := if Matches(r, key) then found[idx := Location(r, base, msi, Add32(msi, last))] else found;
    var k := if Matches(r, key) then idx + 1 else idx;
    if r.Bridge? then Search(r.child, f, k, Add32(base, r.first), msi, last, qty, key) else Result(f, k)
  }

  /** The records from `i` on, until the array is full. */
  function Scan(bus: Bus, i: nat, found: seq<Location>, idx: nat, base: nat, msi: nat, last: nat, qty: nat, key: Key)
    : (r: Result)
    requires HeaderFirst(bus) && i <= |bus.records| && qty <= |found| && (i > 0 ==> idx < qty)
    ensures |r.found| == |found| && (idx <= qty ==> r.idx <= qty)
    decreases bus, 0, |bus.records| - i
  {
    if i == |bus.records| then Result(found, idx)
    else
      var res := Look(bus.records[i], found, idx, base, msi, last, qty, key);
      if res.idx >= qty then res else Scan(bus, i + 1, res.found, res.idx, base, msi, last, qty, key)
  }

  /** The first loop of `find_sdb_deep`: the own MSI records of a crossbar. */
  method OwnMsi(records: seq<Record>, msi: nat) returns (base: nat, adr: nat, count: nat)
    requires msi < WORD
    ensures count == OwnCount(records)
    ensures count <= 1 ==> Add32(base, adr) == MsiStep(msi, OwnOf(records))
  {
    base, adr, count := msi, 0, 0;
    var i := 0;
    while i < |records|
      invariant 0 <= i <= |records|
      invariant count + OwnCount(records[i..]) == OwnCount(records)
      invariant count == 0 ==> base == msi && adr == 0 && OwnOf(records) == OwnOf(records[i..])
      invariant count == 1 ==> OwnOf(records) != None && (base, adr) == Parts(msi, OwnOf(records))
    {
      var r := records[i];
      assert records[i..][1..] == records[i + 1..];
      if IsOwn(r) {
        if base == NO_MSI || (r.key.vendor == 0 && r.key.device == 0) {
          base := NO_MSI;
        } else {
          adr := r.first;
        }
        count := count + 1;
      }
      i := i + 1;
    }
    PartsAdd(msi, OwnOf(records));
  }

  /** What the loop leaves in `msi_base` and `msi_adr` for one own record. */
  function Parts(msi: nat, own: Own): (nat, nat)
  {
    match own
    case None => (msi, 0)
    case Unconnected => (NO_MSI, 0)
    case At(adr) => if msi == NO_MSI then (NO_MSI, 0) else (msi, adr)
  }

  lemma PartsAdd(msi: nat, own: Own)
    requires msi < WORD
    ensures Add32(Parts(msi, own).0, Parts(msi, own).1) == MsiStep(msi, own)
  {
  }

  /** `find_sdb_deep`: the array is filled in place; the number of entries is given back. */
  method FindSdbDeep(bus: Bus, found: array<Location>, base: nat, msi: nat, last: nat, start: nat, qty: nat, key: Key)
    returns (idx: nat)
    requires HeaderFirst(bus) && qty <= found.Length && msi < WORD
    modifies found
    ensures Result(found[..], idx) == Search(bus, old(found[..]), start, base, msi, last, qty, key)
    decreases bus, 1
  {
    hide OwnCount, OwnOf, MsiStep, Matches;
    idx := start;
    var msiBase, msiAdr, count := OwnMsi(bus.records, msi);
    if count > 1 {
      return 0;
    }
    MsiStaysWord(msi, OwnOf(bus.records));
    ghost var m := MsiStep(msi, OwnOf(bus.records));
    ghost var goal := Search(bus, found[..], start, base, msi, last, qty, key);
    var i := 0;
    while i < |bus.records|
      invariant 0 <= i <= |bus.records| && (i > 0 ==> idx < qty)
      invariant Scan(bus, i, found[..], idx, base, m, last, qty, key) == goal
    {
      HeaderMatchesNot(bus.records[i], key);
      idx := LookAt(bus.records[i], found, base, Add32(msiBase, msiAdr), last, idx, qty, key);
      if idx >= qty {
        return;
      }
      i := i + 1;
    }
  }

  lemma MsiStaysWord(msi: nat, own: Own)
    requires msi < WORD
    ensures MsiStep(msi, own) < WORD
  {
  }

  /** The body of the second loop. */
  method LookAt(r: Record, found: array<Location>, base: nat, msi: nat, last: nat, start: nat, qty: nat, key: Key)
    returns (idx: nat)
    requires r.Bridge? ==> HeaderFirst(r.child)
    requires qty <= found.Length && msi < WORD && (Matches(r, key) ==> start < qty)
    modifies found
    ensures Result(found[..], idx) == Look(r, old(found[..]), start, base, msi, last, qty, key)
    decreases r, 2
  {
    hide Search;
    idx := start;
    ghost var before := found[..];
    if r.Bridge? {
      if r.key.vendor == key.vendor && r.key.device == key.device {
        found[idx] := Location(r, base, msi, Add32(msi, last));
        idx := idx + 1;
      }
      assert found[..] == if Matches(r, key) then before[start := Location(r, base, msi, Add32(msi, last))] else before;
      idx := FindSdbDeep(r.child, found, Add32(base, r.first), msi, last, idx, qty, key);
    } else if r.Device? || r.Msi? {
      if r.key.vendor == key.vendor && r.key.device == key.device {
        found[idx] := Location(r, base, msi, Add32(msi, last));
        idx := idx + 1;
      }
      assert found[..] == if Matches(r, key) then before[start := Location(r, base, msi, Add32(msi, last))] else before;
    }
  }

  // ---------------------------------------------------------------- what it walks through

  /** A record, with the offsets of the bridges on the way to its crossbar and what each crossbar on the way,
      its own included, has of its own. */
  datatype Visit = Visit(record: Record, offsets: seq<nat>, owns: seq<Own>)

  /** The records of a tree in preorder, except those of malformed crossbars below it. */
  function Preorder(bus: Bus, offsets: seq<nat>, owns: seq<Own>): seq<Visit>
    decreases bus, 1, 0
  {
    PreorderFrom(bus, 0, offsets, owns + [OwnOf(bus.records)])
  }

  function PreorderOf(r: Record, offsets: seq<nat>, owns: seq<Own>): seq<Visit>
    decreases r, 2, 0
  {
    [Visit(r, offsets, owns)]
    + if r.Bridge? && !Malformed(r.child) then Preorder(r.child, offsets + [r.first], owns) else []
  }

  function PreorderFrom(bus: Bus, i: nat, offsets: seq<nat>, owns: seq<Own>): seq<Visit>
    requires i <= |bus.records|
    decreases bus, 0, |bus.records| - i
  {
    if i == |bus.records| then []
    else PreorderOf(bus.records[i], offsets, owns) + PreorderFrom(bus, i + 1, offsets, owns)
  }

  /** All offsets on the way, added up. */
  function Sum(base: nat, offsets: seq<nat>): nat
  {
    if offsets == [] then base else var n := |offsets| - 1; Add32(Sum(base, offsets[..n]), offsets[n])
  }

  /** The MSI address after all crossbars on the way. */
  function MsiSum(msi: nat, owns: seq<Own>): nat
  {
    if owns == [] then msi else var n := |owns| - 1; MsiStep(MsiSum(msi, owns[..n]), owns[n])
  }

  /** What is searched for, from which addresses on, and how much of it. */
  datatype Query = Query(base: nat, msi: nat, last: nat, qty: nat, key: Key)

  function Located(v: Visit, q: Query): Location
  {
    var m := MsiSum(q.msi, v.owns);
    Location(v.record, Sum(q.base, v.offsets), m, Add32(m, q.last))
  }

  predicate Hit(v: Visit, q: Query)
  {
    Matches(v.record, q.key)
  }

  /** Behind the record lies a malformed crossbar. */
  predicate Forgets(v: Visit)
  {
    v.record.Bridge? && Malformed(v.record.child)
  }

  /** The locations of the visits that match. */
  function Matched(vs: seq<Visit>, q: Query): seq<Location>
  {
    if vs == [] then [] else (if Hit(vs[0], q) then [Located(vs[0], q)] else []) + Matched(vs[1..], q)
  }

  /** The walk carries along what the visits record. */
  lemma SumLast(base: nat, offsets: seq<nat>, x: nat)
    ensures Sum(base, offsets + [x]) == Add32(Sum(base, offsets), x)
  {
    assert (offsets + [x])[..|offsets|] == offsets;
  }

  lemma MsiSumLast(msi: nat, owns: seq<Own>, o: Own)
    ensures MsiSum(msi, owns + [o]) == MsiStep(MsiSum(msi, owns), o)
  {
    assert (owns + [o])[..|owns|] == owns;
  }

  // ---------------------------------------------------------------- the walk, by positions

  /** The positions to go through, from crossbar to crossbar, to a record that is not below a malformed crossbar. */
  predicate Path(bus: Bus, p: seq<nat>)
    decreases |p|
  {
    && p != [] && p[0] < |bus.records|
    && (|p| > 1 ==>
          && bus.records[p[0]].Bridge? && !Malformed(bus.records[p[0]].child)
          && Path(bus.records[p[0]].child, p[1..]))
  }

  /** The record at the end of a path, with the offsets of its bridges and what its crossbars have of their own. */
  function VisitAt(bus: Bus, p: seq<nat>, offsets: seq<nat>, owns: seq<Own>): Visit
    requires Path(bus, p)
    decreases |p|
  {
    var r := bus.records[p[0]];
    if |p| == 1 then Visit(r, offsets, owns)
    else VisitAt(r.child, p[1..], offsets + [r.first], owns + [OwnOf(r.child.records)])
  }

  /** In the order of the positions; a bridge comes before what is behind it. */
  predicate Before(p: seq<nat>, q: seq<nat>)
    decreases |p|
  {
    q != [] && (p == [] || p[0] < q[0] || (p[0] == q[0] && Before(p[1..], q[1..])))
  }

  function Under(i: nat, ps: seq<seq<nat>>): (r: seq<seq<nat>>)
    ensures |r| == |ps| && forall k | 0 <= k < |r| :: r[k] == [i] + ps[k]
  {
    seq(|ps|, k requires 0 <= k < |ps| => [i] + ps[k])
  }

  /** The paths of a tree, in the order of the walk. */
  function Paths(bus: Bus): seq<seq<nat>>
    decreases bus, 1, 0
  {
    PathsFrom(bus, 0)
  }

  function PathsOf(bus: Bus, i: nat): seq<seq<nat>>
    requires i < |bus.records|
    decreases bus, 0, |bus.records| - i, 0
  {
    var r := bus.records[i];
    [[i]] + if r.Bridge? && !Malformed(r.child) then Under(i, Paths(r.child)) else []
  }

  function PathsFrom(bus: Bus, i: nat): seq<seq<nat>>
    requires i <= |bus.records|
    decreases bus, 0, |bus.records| - i, 1
  {
    if i == |bus.records| then [] else PathsOf(bus, i) + PathsFrom(bus, i + 1)
  }

  /** `ps` are paths that begin with a position from `lo` to `hi`, and `vs` are their visits. */
  ghost predicate Visits(bus: Bus, ps: seq<seq<nat>>, vs: seq<Visit>, lo: nat, hi: nat, offsets: seq<nat>,
                         owns: seq<Own>)
  {
    && |ps| == |vs|
    && forall k | 0 <= k < |ps| ::
         Path(bus, ps[k]) && lo <= ps[k][0] < hi && vs[k] == VisitAt(bus, ps[k], offsets, owns)
  }

  ghost predicate InOrder(ps: seq<seq<nat>>)
  {
    forall j, k | 0 <= j < k < |ps| :: Before(ps[j], ps[k])
  }

  /** No path is left out. */
  ghost predicate AllIn(bus: Bus, ps: seq<seq<nat>>, lo: nat, hi: nat)
  {
    forall p | Path(bus, p) && lo <= p[0] < hi :: p in ps
  }

  ghost predicate Walk(bus: Bus, ps: seq<seq<nat>>, vs: seq<Visit>, lo: nat, hi: nat, offsets: seq<nat>, owns: seq<Own>)
  {
    Visits(bus, ps, vs, lo, hi, offsets, owns) && InOrder(ps) && AllIn(bus, ps, lo, hi)
  }

  lemma WalkJoin(bus: Bus, ps: seq<seq<nat>>, vs: seq<Visit>, qs: seq<seq<nat>>, ws: seq<Visit>,
                 lo: nat, mid: nat, hi: nat, offsets: seq<nat>, owns: seq<Own>)
    requires lo <= mid <= hi
    requires Walk(bus, ps, vs, lo, mid, offsets, owns) && Walk(bus, qs, ws, mid, hi, offsets, owns)
    ensures Walk(bus, ps + qs, vs + ws, lo, hi, offsets, owns)
  {
    hide VisitAt, Malformed, Before, Path;
    OrderJoin(bus, ps, vs, qs, ws, lo, mid, hi, offsets, owns);
    AllInJoin(bus, ps, qs, lo, mid, hi);
  }

  lemma OrderJoin(bus: Bus, ps: seq<seq<nat>>, vs: seq<Visit>, qs: seq<seq<nat>>, ws: seq<Visit>,
                  lo: nat, mid: nat, hi: nat, offsets: seq<nat>, owns: seq<Own>)
    requires Visits(bus, ps, vs, lo, mid, offsets, owns) && InOrder(ps)
    requires Visits(bus, qs, ws, mid, hi, offsets, owns) && InOrder(qs)
    ensures InOrder(ps + qs)
  {
    hide VisitAt, Malformed;
    var all := ps + qs;
    forall j, k | 0 <= j < k < |all|
      ensures Before(all[j], all[k])
    {
      if j < |ps| <= k {
        assert all[j] == ps[j] && all[k] == qs[k - |ps|] && ps[j][0] < mid <= qs[k - |ps|][0];
      }
    }
  }

  lemma AllInJoin(bus: Bus, ps: seq<seq<nat>>, qs: seq<seq<nat>>, lo: nat, mid: nat, hi: nat)
    requires AllIn(bus, ps, lo, mid) && AllIn(bus, qs, mid, hi)
    ensures AllIn(bus, ps + qs, lo, hi)
  {
    hide Malformed;
    forall p | Path(bus, p) && lo <= p[0] < hi
      ensures p in ps + qs
    {
      if p[0] < mid { assert p in ps; } else { assert p in qs; }
    }
  }

  lemma {:induction false} WalkOfBus(bus: Bus, offsets: seq<nat>, owns: seq<Own>)
    ensures Walk(bus, Paths(bus), PreorderFrom(bus, 0, offsets, owns), 0, |bus.records|, offsets, owns)
    decreases bus, 1, 0
  {
    WalkFrom(bus, 0, offsets, owns);
  }

  lemma {:induction false} WalkFrom(bus: Bus, i: nat, offsets: seq<nat>, owns: seq<Own>)
    requires i <= |bus.records|
    ensures Walk(bus, PathsFrom(bus, i), PreorderFrom(bus, i, offsets, owns), i, |bus.records|, offsets, owns)
    decreases bus, 0, |bus.records| - i, 1
  {
    hide Path, VisitAt, Before, Walk, PathsOf, PreorderOf;
    if i == |bus.records| {
      NoWalk(bus, i, offsets, owns);
    } else {
      WalkOne(bus, i, offsets, owns);
      WalkFrom(bus, i + 1, offsets, owns);
      WalkJoin(bus, PathsOf(bus, i), PreorderOf(bus.records[i], offsets, owns), PathsFrom(bus, i + 1),
               PreorderFrom(bus, i + 1, offsets, owns), i, i + 1, |bus.records|, offsets, owns);
    }
  }

  lemma NoWalk(bus: Bus, i: nat, offsets: seq<nat>, owns: seq<Own>)
    ensures Walk(bus, [], [], i, i, offsets, owns)
  {
  }

  lemma {:induction false} WalkOne(bus: Bus, i: nat, offsets: seq<nat>, owns: seq<Own>)
    requires i < |bus.records|
    ensures Walk(bus, PathsOf(bus, i), PreorderOf(bus.records[i], offsets, owns), i, i + 1, offsets, owns)
    decreases bus, 0, |bus.records| - i, 0
  {
    hide Malformed, OwnOf, Walk;
    var r := bus.records[i];
    if r.Bridge? && !Malformed(r.child) {
      var below := owns + [OwnOf(r.child.records)];
      WalkOfBus(r.child, offsets + [r.first], below);
      WalkBelow(bus, i, Paths(r.child), PreorderFrom(r.child, 0, offsets + [r.first], below), offsets, owns);
      assert PreorderOf(r, offsets, owns)
          == [Visit(r, offsets, owns)] + PreorderFrom(r.child, 0, offsets + [r.first], below);
    } else {
      OnlyWalk(bus, i, offsets, owns);
      assert PathsOf(bus, i) == [[i]] && PreorderOf(r, offsets, owns) == [Visit(r, offsets, owns)];
    }
  }

  lemma OnlyWalk(bus: Bus, i: nat, offsets: seq<nat>, owns: seq<Own>)
    requires i < |bus.records| && !(bus.records[i].Bridge? && !Malformed(bus.records[i].child))
    ensures Walk(bus, [[i]], [Visit(bus.records[i], offsets, owns)], i, i + 1, offsets, owns)
  {
    hide Malformed;
    forall p | Path(bus, p) && i <= p[0] < i + 1 ensures p in [[i]] { assert p == [i]; }
  }

  lemma WalkBelow(bus: Bus, i: nat, ps: seq<seq<nat>>, vs: seq<Visit>, offsets: seq<nat>, owns: seq<Own>)
    requires i < |bus.records| && bus.records[i].Bridge? && !Malformed(bus.records[i].child)
    requires var r := bus.records[i];
      Walk(r.child, ps, vs, 0, |r.child.records|, offsets + [r.first], owns + [OwnOf(r.child.records)])
    ensures Walk(bus, [[i]] + Under(i, ps), [Visit(bus.records[i], offsets, owns)] + vs, i, i + 1, offsets, owns)
  {
    hide VisitAt, Path, Malformed, OwnOf, Before;
    VisitsBelow(bus, i, ps, vs, offsets, owns);
    var r := bus.records[i];
    SomeIn(r.child, ps, vs, offsets + [r.first], owns + [OwnOf(r.child.records)]);
    OrderBelow(i, ps);
    AllBelow(bus, i, ps);
  }

  lemma SomeIn(bus: Bus, ps: seq<seq<nat>>, vs: seq<Visit>, offsets: seq<nat>, owns: seq<Own>)
    requires Visits(bus, ps, vs, 0, |bus.records|, offsets, owns)
    ensures forall k | 0 <= k < |ps| :: ps[k] != []
  {
    hide VisitAt, Malformed;
  }

  lemma VisitsBelow(bus: Bus, i: nat, ps: seq<seq<nat>>, vs: seq<Visit>, offsets: seq<nat>, owns: seq<Own>)
    requires i < |bus.records| && bus.records[i].Bridge? && !Malformed(bus.records[i].child)
    requires var r := bus.records[i];
      Visits(r.child, ps, vs, 0, |r.child.records|, offsets + [r.first], owns + [OwnOf(r.child.records)])
    ensures Visits(bus, [[i]] + Under(i, ps), [Visit(bus.records[i], offsets, owns)] + vs, i, i + 1, offsets, owns)
  {
    hide Malformed, OwnOf;
    var all, us := [[i]] + Under(i, ps), [Visit(bus.records[i], offsets, owns)] + vs;
    forall k | 0 <= k < |all|
      ensures Path(bus, all[k]) && all[k][0] == i && us[k] == VisitAt(bus, all[k], offsets, owns)
    {
      if k > 0 { assert all[k] == [i] + ps[k - 1] && all[k][1..] == ps[k - 1]; }
    }
  }

  lemma AllBelow(bus: Bus, i: nat, ps: seq<seq<nat>>)
    requires i < |bus.records| && bus.records[i].Bridge? && !Malformed(bus.records[i].child)
    requires AllIn(bus.records[i].child, ps, 0, |bus.records[i].child.records|)
    ensures AllIn(bus, [[i]] + Under(i, ps), i, i + 1)
  {
    hide Malformed;
    var all := [[i]] + Under(i, ps);
    forall p | Path(bus, p) && i <= p[0] < i + 1
      ensures p in all
    {
      if |p| == 1 {
        assert p == [i] == all[0];
      } else {
        PathBelow(bus, p);
        assert p[1..] in ps;
        var k :| 0 <= k < |ps| && ps[k] == p[1..];
        assert all[k + 1] == [i] + ps[k] == p;
      }
    }
  }

  lemma PathBelow(bus: Bus, p: seq<nat>)
    requires Path(bus, p) && |p| > 1
    ensures var r := bus.records[p[0]];
      r.Bridge? && Path(r.child, p[1..]) && p[1] < |r.child.records|
  {
  }

  lemma OrderBelow(i: nat, ps: seq<seq<nat>>)
    requires InOrder(ps) && forall k | 0 <= k < |ps| :: ps[k] != []
    ensures InOrder([[i]] + Under(i, ps))
  {
    var all := [[i]] + Under(i, ps);
    forall j, k | 0 <= j < k < |all|
      ensures Before(all[j], all[k])
    {
      assert all[k] == [i] + ps[k - 1] && all[k][1..] == ps[k - 1];
      if j > 0 {
        assert all[j] == [i] + ps[j - 1] && all[j][1..] == ps[j - 1];
        assert Before(ps[j - 1], ps[k - 1]);
      } else {
        assert all[j] == [i] && all[j][1..] == [] && Before([], ps[k - 1]);
      }
    }
  }

  /** The walk visits every record that is not below a malformed crossbar, once, in the order of the positions. */
  lemma WalkIsComplete(bus: Bus)
    ensures var ps, vs := Paths(bus), Preorder(bus, [], []);
      && |ps| == |vs|
      && (forall k | 0 <= k < |vs| :: Path(bus, ps[k]) && vs[k] == VisitAt(bus, ps[k], [], [OwnOf(bus.records)]))
      && (forall j, k | 0 <= j < k < |ps| :: Before(ps[j], ps[k]))
      && (forall p | Path(bus, p) :: p in ps)
  {
    hide Before, VisitAt;
    WalkOfBus(bus, [], [OwnOf(bus.records)]);
    assert [] + [OwnOf(bus.records)] == [OwnOf(bus.records)];
  }

  // ---------------------------------------------------------------- what it collects on the way

  /** One visit: a match is entered, and a malformed crossbar makes the search forget everything. */
  function Met(v: Visit, r: Result, q: Query): (s: Result)
    requires r.idx < q.qty <= |r.found|
    ensures |s.found| == |r.found| && s.idx <= q.qty
  {
    var e := if Hit(v, q) then Result(r.found[r.idx := Located(v, q)], r.idx + 1) else r;
    if Forgets(v) then Result(e.found, 0) else e
  }

  /** The visits one after the other, until the array is full. */
  function Collect(vs: seq<Visit>, r: Result, q: Query): (s: Result)
    requires q.qty <= |r.found|
    ensures |s.found| == |r.found| && (r.idx <= q.qty ==> s.idx <= q.qty)
    decreases |vs|
  {
    if vs == [] || r.idx >= q.qty then r else Collect(vs[1..], Met(vs[0], r, q), q)
  }

  lemma {:induction false} CollectJoin(a: seq<Visit>, b: seq<Visit>, r: Result, q: Query)
    requires q.qty <= |r.found|
    ensures Collect(a + b, r, q) == Collect(b, Collect(a, r, q), q)
    decreases |a|
  {
    hide Met;
    if a == [] {
      assert a + b == b;
    } else if r.idx < q.qty {
      assert (a + b)[1..] == a[1..] + b;
      CollectJoin(a[1..], b, Met(a[0], r, q), q);
    }
  }

  /** For every tree: the search collects what it meets in preorder. */
  lemma {:induction false} SearchCollects(bus: Bus, found: seq<Location>, idx: nat, q: Query,
                                          offsets: seq<nat>, owns: seq<Own>)
    requires HeaderFirst(bus) && q.qty <= |found|
    ensures Search(bus, found, idx, Sum(q.base, offsets), MsiSum(q.msi, owns), q.last, q.qty, q.key)
         == if Malformed(bus) then Result(found, 0) else Collect(Preorder(bus, offsets, owns), Result(found, idx), q)
    decreases bus, 1, 0
  {
    hide HeaderFirst, Malformed, OwnOf, MsiStep, Sum, MsiSum, Collect, Scan;
    MsiSumLast(q.msi, owns, OwnOf(bus.records));
    ScanCollects(bus, 0, found, idx, q, offsets, owns + [OwnOf(bus.records)]);
  }

  lemma {:induction false} ScanCollects(bus: Bus, i: nat, found: seq<Location>, idx: nat, q: Query,
                                        offsets: seq<nat>, owns: seq<Own>)
    requires HeaderFirst(bus) && i <= |bus.records| && q.qty <= |found| && (i > 0 ==> idx < q.qty)
    ensures Scan(bus, i, found, idx, Sum(q.base, offsets), MsiSum(q.msi, owns), q.last, q.qty, q.key)
         == Collect(PreorderFrom(bus, i, offsets, owns), Result(found, idx), q)
    decreases bus, 0, |bus.records| - i
  {
    hide Malformed, OwnOf, MsiStep, Sum, MsiSum, Met, Look, PreorderOf, Matches;
    if i < |bus.records| {
      var r := bus.records[i];
      var here, rest := PreorderOf(r, offsets, owns), PreorderFrom(bus, i + 1, offsets, owns);
      HeaderMatchesNot(r, q.key);
      LookCollects(r, found, idx, q, offsets, owns);
      CollectJoin(here, rest, Result(found, idx), q);
      var s := Collect(here, Result(found, idx), q);
      if s.idx < q.qty {
        ScanCollects(bus, i + 1, s.found, s.idx, q, offsets, owns);
      }
    }
  }

  lemma HeaderMatchesNot(r: Record, key: Key)
    ensures r.Interconnect? ==> !Matches(r, key)
  {
  }

  lemma {:induction false} LookCollects(r: Record, found: seq<Location>, idx: nat, q: Query,
                                        offsets: seq<nat>, owns: seq<Own>)
    requires r.Bridge? ==> HeaderFirst(r.child)
    requires q.qty <= |found| && (r.Interconnect? || idx < q.qty)
    requires Matches(r, q.key) ==> idx < q.qty
    ensures Look(r, found, idx, Sum(q.base, offsets), MsiSum(q.msi, owns), q.last, q.qty, q.key)
         == Collect(PreorderOf(r, offsets, owns), Result(found, idx), q)
    decreases r, 2, 0
  {
    hide HeaderFirst, Malformed, OwnOf, MsiStep, Sum, MsiSum, Matches, Search, Preorder;
    var v := Visit(r, offsets, owns);
    var below := if r.Bridge? && !Malformed(r.child) then Preorder(r.child, offsets + [r.first], owns) else [];
    HeaderMatchesNot(r, q.key);
    CollectJoin([v], below, Result(found, idx), q);
    assert [v][1..] == [];
    if r.Bridge? {
      var e := if Hit(v, q) then Result(found[idx := Located(v, q)], idx + 1) else Result(found, idx);
      SumLast(q.base, offsets, r.first);
      SearchCollects(r.child, e.found, e.idx, q, offsets + [r.first], owns);
    }
  }

  // ---------------------------------------------------------------- what it finds

  function Least(a: nat, b: nat): nat { if a < b then a else b }

  /** The array with `ms` entered from `idx` on, as far as there is room for `qty` entries. */
  function Filled(found: seq<Location>, idx: nat, ms: seq<Location>, qty: nat): (r: Result)
    requires idx <= qty <= |found|
    ensures |r.found| == |found| && r.idx <= qty
  {
    var n := Least(|ms|, qty - idx);
    Result(found[..idx] + ms[..n] + found[idx + n..], idx + n)
  }

  lemma FilledNothing(found: seq<Location>, idx: nat, ms: seq<Location>, qty: nat)
    requires idx <= qty <= |found| && (ms == [] || idx == qty)
    ensures Filled(found, idx, ms, qty) == Result(found, idx)
  {
    var n := Least(|ms|, qty - idx);
    assert ms[..n] == [];
    assert found[..idx] + [] + found[idx..] == found;
  }

  lemma FilledMore(found: seq<Location>, idx: nat, m: Location, ms: seq<Location>, qty: nat)
    requires idx < qty <= |found|
    ensures Filled(found[idx := m], idx + 1, ms, qty) == Filled(found, idx, [m] + ms, qty)
  {
    var n := Least(|ms|, qty - idx - 1);
    assert ([m] + ms)[..n + 1] == [m] + ms[..n];
    assert found[idx := m][..idx + 1] == found[..idx] + [m];
    assert found[idx := m][idx + 1 + n..] == found[idx + 1 + n..];
    assert (found[..idx] + [m]) + ms[..n] == found[..idx] + ([m] + ms[..n]);
  }

  /** When visit `i` is over, nothing has been found yet, or the array was full before it. */
  predicate KeptAt(vs: seq<Visit>, i: nat, idx: nat, q: Query)
    requires i < |vs|
  {
    idx + |Matched(vs[..i + 1], q)| == 0 || idx + |Matched(vs[..i], q)| >= q.qty
  }

  /** Until the array is full, nothing has been found yet whenever the search forgets. */
  ghost predicate NothingLost(vs: seq<Visit>, idx: nat, q: Query)
  {
    forall i | 0 <= i < |vs| && Forgets(vs[i]) :: KeptAt(vs, i, idx, q)
  }

  /** The same, one visit at a time. */
  lemma NothingLostStep(vs: seq<Visit>, idx: nat, q: Query)
    requires vs != [] && idx < q.qty
    ensures NothingLost(vs, idx, q)
       <==> && (Forgets(vs[0]) ==> idx == 0 && !Hit(vs[0], q))
            && NothingLost(vs[1..], idx + if Hit(vs[0], q) then 1 else 0, q)
  {
    hide Hit, Forgets, Located;
    var rest, k := vs[1..], idx + if Hit(vs[0], q) then 1 else 0;
    forall i | 0 <= i < |vs|
      ensures KeptAt(vs, i, idx, q) <==> if i == 0 then idx == 0 && !Hit(vs[0], q) else KeptAt(rest, i - 1, k, q)
    {
      MatchedFront(vs, i + 1, q);
      if i > 0 { MatchedFront(vs, i, q); }
      assert vs[..0] == [] && rest[..0] == [];
    }
    if NothingLost(vs, idx, q) {
      forall i | 0 <= i < |rest| && Forgets(rest[i])
        ensures KeptAt(rest, i, k, q)
      {
        assert Forgets(vs[i + 1]) && KeptAt(vs, i + 1, idx, q);
      }
      if Forgets(vs[0]) { assert KeptAt(vs, 0, idx, q); }
    }
    if NothingLost(rest, k, q) && (Forgets(vs[0]) ==> idx == 0 && !Hit(vs[0], q)) {
      forall i | 0 <= i < |vs| && Forgets(vs[i])
        ensures KeptAt(vs, i, idx, q)
      {
        if i > 0 { assert Forgets(rest[i - 1]) && KeptAt(rest, i - 1, k, q); }
      }
    }
  }

  lemma MatchedFront(vs: seq<Visit>, i: nat, q: Query)
    requires 0 < i <= |vs|
    ensures |Matched(vs[..i], q)| == (if Hit(vs[0], q) then 1 else 0) + |Matched(vs[1..][..i - 1], q)|
  {
    assert vs[..i][1..] == vs[1..][..i - 1];
  }

  /** If nothing is lost, the array holds exactly the matches, in preorder, as far as there is room. */
  lemma {:induction false} CollectFills(vs: seq<Visit>, found: seq<Location>, idx: nat, q: Query)
    requires idx <= q.qty <= |found| && NothingLost(vs, idx, q)
    ensures Collect(vs, Result(found, idx), q) == Filled(found, idx, Matched(vs, q), q.qty)
    decreases |vs|
  {
    hide NothingLost, Filled, Hit, Forgets, Located;
    if vs == [] || idx == q.qty {
      FilledNothing(found, idx, Matched(vs, q), q.qty);
    } else {
      NothingLostStep(vs, idx, q);
      if Hit(vs[0], q) {
        var m := Located(vs[0], q);
        CollectFills(vs[1..], found[idx := m], idx + 1, q);
        FilledMore(found, idx, m, Matched(vs[1..], q), q.qty);
      } else {
        CollectFills(vs[1..], found, idx, q);
        assert Matched(vs, q) == Matched(vs[1..], q);
      }
    }
  }

  /** The next `n` matches come before anything is forgotten. */
  predicate Reaches(vs: seq<Visit>, n: nat, q: Query)
  {
    n == 0 || (vs != [] && !Forgets(vs[0]) && Reaches(vs[1..], if Hit(vs[0], q) then n - 1 else n, q))
  }

  /** After one of the places where it forgets, the search finds enough before it forgets again. */
  ghost predicate Refills(vs: seq<Visit>, q: Query)
  {
    exists i :: 0 <= i < |vs| && Forgets(vs[i]) && Reaches(vs[i + 1..], q.qty, q)
  }

  lemma RefillsStep(vs: seq<Visit>, q: Query)
    requires vs != []
    ensures Refills(vs, q) <==> (Forgets(vs[0]) && Reaches(vs[1..], q.qty, q)) || Refills(vs[1..], q)
  {
    hide Forgets, Hit, Reaches;
    var rest := vs[1..];
    if Refills(vs, q) {
      var i :| 0 <= i < |vs| && Forgets(vs[i]) && Reaches(vs[i + 1..], q.qty, q);
      if i > 0 {
        assert rest[i - 1] == vs[i] && rest[i..] == vs[i + 1..];
      }
    }
    if Refills(rest, q) {
      var i :| 0 <= i < |rest| && Forgets(rest[i]) && Reaches(rest[i + 1..], q.qty, q);
      assert rest[i] == vs[i + 1] && rest[i + 1..] == vs[i + 2..];
    }
    if Forgets(vs[0]) && Reaches(rest, q.qty, q) {
      assert vs[0 + 1..] == rest;
    }
  }

  /** The array ends up full exactly if enough matches come before anything is forgotten, or after such a place. */
  lemma {:induction false} FullMeans(vs: seq<Visit>, r: Result, q: Query)
    requires 0 < q.qty <= |r.found| && r.idx <= q.qty
    ensures Collect(vs, r, q).idx == q.qty <==> Reaches(vs, q.qty - r.idx, q) || Refills(vs, q)
    decreases |vs|
  {
    hide Forgets, Hit, Located;
    if vs != [] && r.idx < q.qty {
      FullMeans(vs[1..], Met(vs[0], r, q), q);
      RefillsStep(vs, q);
    }
  }

  /** No more is found than matches come. */
  lemma {:induction false} CollectAtMost(vs: seq<Visit>, r: Result, q: Query)
    requires q.qty <= |r.found|
    ensures Collect(vs, r, q).idx <= r.idx + |Matched(vs, q)|
    decreases |vs|
  {
    hide Forgets, Hit, Located;
    if vs != [] && r.idx < q.qty {
      CollectAtMost(vs[1..], Met(vs[0], r, q), q);
    }
  }

  /** The number found is the number of matches, as far as there is room, exactly if nothing is lost
      or the search finds enough again after it has forgotten. */
  lemma {:induction false} CountIsRight(vs: seq<Visit>, r: Result, q: Query)
    requires r.idx <= q.qty <= |r.found|
    ensures Collect(vs, r, q).idx == Least(q.qty, r.idx + |Matched(vs, q)|)
       <==> NothingLost(vs, r.idx, q) || Refills(vs, q)
    decreases |vs|
  {
    hide NothingLost, Refills, Forgets, Hit, Located, Reaches;
    if vs == [] || r.idx == q.qty {
      FullOrDone(vs, r.idx, q);
    } else {
      var s := Met(vs[0], r, q);
      NothingLostStep(vs, r.idx, q);
      RefillsStep(vs, q);
      CountIsRight(vs[1..], s, q);
      FullMeans(vs[1..], s, q);
      CollectAtMost(vs[1..], s, q);
      if Reaches(vs[1..], q.qty, q) { ReachesMatches(vs[1..], q.qty, q); }
    }
  }

  lemma FullOrDone(vs: seq<Visit>, idx: nat, q: Query)
    requires vs == [] || idx >= q.qty
    ensures NothingLost(vs, idx, q)
  {
  }

  lemma {:induction false} ReachesMatches(vs: seq<Visit>, n: nat, q: Query)
    requires Reaches(vs, n, q)
    ensures n <= |Matched(vs, q)|
    decreases |vs|
  {
    if n > 0 { ReachesMatches(vs[1..], if Hit(vs[0], q) then n - 1 else n, q); }
  }

  /** The number that the search of a tree gives back is right exactly if nothing is lost on its walk, or made up
      for. */
  lemma SearchCountIsRight(bus: Bus, found: seq<Location>, idx: nat, q: Query)
    requires HeaderFirst(bus) && !Malformed(bus) && idx <= q.qty <= |found|
    ensures var vs := Preorder(bus, [], []);
      Search(bus, found, idx, q.base, q.msi, q.last, q.qty, q.key).idx == Least(q.qty, idx + |Matched(vs, q)|)
      <==> NothingLost(vs, idx, q) || Refills(vs, q)
  {
    hide Search, Preorder, Matched, NothingLost, Refills, HeaderFirst, Malformed;
    SearchCollects(bus, found, idx, q, [], []);
    CountIsRight(Preorder(bus, [], []), Result(found, idx), q);
  }

  lemma {:induction false} ReachingLosesNothing(vs: seq<Visit>, idx: nat, q: Query)
    requires idx <= q.qty && Reaches(vs, q.qty - idx, q)
    ensures NothingLost(vs, idx, q)
    decreases |vs|
  {
    hide NothingLost, Forgets, Hit, Located;
    if vs == [] || idx == q.qty {
      FullOrDone(vs, idx, q);
    } else {
      NothingLostStep(vs, idx, q);
      ReachingLosesNothing(vs[1..], if Hit(vs[0], q) then idx + 1 else idx, q);
    }
  }

  lemma PlaceLeft(vs: seq<Visit>, q: Query)
    requires Refills(vs, q)
    ensures vs != []
  {
  }

  /** The visits behind the first place where the search forgets and then finds enough before it forgets again. */
  ghost function Behind(vs: seq<Visit>, q: Query): (rest: seq<Visit>)
    requires Refills(vs, q)
    ensures Reaches(rest, q.qty, q)
    decreases |vs|
  {
    RefillsStep(vs, q);
    if Forgets(vs[0]) && Reaches(vs[1..], q.qty, q) then vs[1..] else Behind(vs[1..], q)
  }

  /** What a search that has to start again ends up with: the first matches behind that place. */
  lemma {:induction false} Refilled(vs: seq<Visit>, r: Result, q: Query)
    requires r.idx <= q.qty <= |r.found| && !Reaches(vs, q.qty - r.idx, q) && Refills(vs, q)
    ensures |Matched(Behind(vs, q), q)| >= q.qty
    ensures Collect(vs, r, q) == Result(Matched(Behind(vs, q), q)[..q.qty] + r.found[q.qty..], q.qty)
    decreases |vs|
  {
    hide NothingLost, Refills, Forgets, Hit, Located, Filled;
    PlaceLeft(vs, q);
    RefillsStep(vs, q);
    var s, rest := Met(vs[0], r, q), vs[1..];
    if Forgets(vs[0]) && Reaches(rest, q.qty, q) {
      ReachesMatches(rest, q.qty, q);
      ReachingLosesNothing(rest, 0, q);
      CollectFills(rest, s.found, 0, q);
      FilledFull(s.found, Matched(rest, q), q.qty);
    } else {
      Refilled(rest, s, q);
    }
    assert s.found[q.qty..] == r.found[q.qty..];
  }

  lemma FilledFull(found: seq<Location>, ms: seq<Location>, qty: nat)
    requires qty <= |ms| && qty <= |found|
    ensures Filled(found, 0, ms, qty) == Result(ms[..qty] + found[qty..], qty)
  {
    assert found[..0] + ms[..qty] == ms[..qty];
  }

  /** The first matches behind that place are the entries that should be there. */
  ghost predicate SameAgain(vs: seq<Visit>, held: seq<Location>, q: Query)
    requires Refills(vs, q)
  {
    var ms := Matched(Behind(vs, q), q);
    && q.qty <= |ms| && q.qty <= |held + Matched(vs, q)|
    && ms[..q.qty] == (held + Matched(vs, q))[..q.qty]
  }

  /** The array holds the first matches, in preorder, exactly if nothing is lost, or what is found instead
      is the same. */
  lemma ContentsAreRight(vs: seq<Visit>, found: seq<Location>, idx: nat, q: Query)
    requires idx <= q.qty <= |found|
    ensures Collect(vs, Result(found, idx), q) == Filled(found, idx, Matched(vs, q), q.qty)
       <==> NothingLost(vs, idx, q) || (Refills(vs, q) && SameAgain(vs, found[..idx], q))
  {
    hide NothingLost, Refills, Forgets, Hit, Located, Filled, Matched, Collect, Reaches, Behind;
    var r, ms := Result(found, idx), Matched(vs, q);
    FilledCount(found, idx, ms, q.qty);
    CountIsRight(vs, r, q);
    if NothingLost(vs, idx, q) {
      CollectFills(vs, found, idx, q);
    } else if Refills(vs, q) {
      if Reaches(vs, q.qty - idx, q) { ReachingLosesNothing(vs, idx, q); }
      Refilled(vs, r, q);
      CollectAtMost(vs, r, q);
      FilledAll(found, idx, ms, q.qty);
      var again, wanted, tail := Matched(Behind(vs, q), q)[..q.qty], (found[..idx] + ms)[..q.qty], found[q.qty..];
      assert (again + tail)[..q.qty] == again && (wanted + tail)[..q.qty] == wanted;
    }
  }

  lemma FilledCount(found: seq<Location>, idx: nat, ms: seq<Location>, qty: nat)
    requires idx <= qty <= |found|
    ensures Filled(found, idx, ms, qty).idx == Least(qty, idx + |ms|)
  {
  }

  lemma FilledAll(found: seq<Location>, idx: nat, ms: seq<Location>, qty: nat)
    requires idx <= qty <= |found| && qty <= idx + |ms|
    ensures Filled(found, idx, ms, qty) == Result((found[..idx] + ms)[..qty] + found[qty..], qty)
  {
    assert found[..idx] + ms[..qty - idx] == (found[..idx] + ms)[..qty];
  }

  ghost predicate Different(ms: seq<Location>)
  {
    forall i, j | 0 <= i < j < |ms| :: ms[i] != ms[j]
  }

  /** The matches behind that place are the last of all matches. */
  lemma {:induction false} BehindIsEnd(vs: seq<Visit>, q: Query)
    requires Refills(vs, q)
    ensures var ms, rest := Matched(vs, q), Matched(Behind(vs, q), q);
      |rest| <= |ms| && rest == ms[|ms| - |rest|..]
    ensures |Matched(Behind(vs, q), q)| == |Matched(vs, q)| ==> NothingLost(vs, 0, q)
    decreases |vs|
  {
    hide NothingLost, Refills, Forgets, Hit, Located, Reaches;
    PlaceLeft(vs, q);
    RefillsStep(vs, q);
    var rest := vs[1..];
    if q.qty == 0 {
      FullOrDone(vs, 0, q);
    } else {
      NothingLostStep(vs, 0, q);
    }
    if Forgets(vs[0]) && Reaches(rest, q.qty, q) {
      ReachingLosesNothing(rest, 0, q);
    } else {
      BehindIsEnd(rest, q);
    }
  }

  lemma DifferentNotSame(vs: seq<Visit>, q: Query)
    requires Different(Matched(vs, q)) && Refills(vs, q) && !NothingLost(vs, 0, q)
    ensures !SameAgain(vs, [], q)
  {
    hide NothingLost, Refills, Matched, Reaches, Behind;
    var ms, rest := Matched(vs, q), Matched(Behind(vs, q), q);
    if q.qty == 0 { FullOrDone(vs, 0, q); }
    BehindIsEnd(vs, q);
    ReachesMatches(Behind(vs, q), q.qty, q);
    assert rest[0] == ms[|ms| - |rest|];
    assert [] + ms == ms && rest[..q.qty][0] == rest[0];
    assert q.qty <= |ms| ==> ms[..q.qty][0] == ms[0];
  }

  /** If no two matches have the same location, the array is right exactly if nothing is lost. */
  lemma DifferentAreRight(vs: seq<Visit>, found: seq<Location>, q: Query)
    requires q.qty <= |found| && Different(Matched(vs, q))
    ensures Collect(vs, Result(found, 0), q) == Filled(found, 0, Matched(vs, q), q.qty) <==> NothingLost(vs, 0, q)
  {
    hide NothingLost, Refills, Filled, Matched, Collect, SameAgain, Different;
    ContentsAreRight(vs, found, 0, q);
    assert found[..0] == [];
    if !NothingLost(vs, 0, q) && Refills(vs, q) { DifferentNotSame(vs, q); }
  }

  /** The search of a tree finds what it should exactly if nothing is lost on its walk, or what is found instead
      is the same. */
  lemma SearchIsRight(bus: Bus, found: seq<Location>, idx: nat, q: Query)
    requires HeaderFirst(bus) && !Malformed(bus) && idx <= q.qty <= |found|
    ensures var vs := Preorder(bus, [], []);
      var r := Search(bus, found, idx, q.base, q.msi, q.last, q.qty, q.key);
      var right := r == Filled(found, idx, Matched(vs, q), q.qty);
      && (right <==> NothingLost(vs, idx, q) || (Refills(vs, q) && SameAgain(vs, found[..idx], q)))
      && (idx == 0 && Different(Matched(vs, q)) ==> (right <==> NothingLost(vs, idx, q)))
  {
    hide Search, Preorder, Matched, NothingLost, Refills, SameAgain, HeaderFirst, Malformed, Filled, Collect, Different;
    var vs := Preorder(bus, [], []);
    SearchCollects(bus, found, idx, q, [], []);
    ContentsAreRight(vs, found, idx, q);
    if idx == 0 && Different(Matched(vs, q)) { DifferentAreRight(vs, found, q); }
  }

  /** No crossbar has two MSI records of its own. */
  predicate Clean(bus: Bus)
  {
    && !Malformed(bus)
    && forall i | 0 <= i < |bus.records| :: bus.records[i].Bridge? ==> Clean(bus.records[i].child)
  }

  ghost predicate NeverForgets(vs: seq<Visit>)
  {
    forall i | 0 <= i < |vs| :: !Forgets(vs[i])
  }

  lemma {:induction false} CleanNeverForgets(bus: Bus, offsets: seq<nat>, owns: seq<Own>)
    requires Clean(bus)
    ensures NeverForgets(Preorder(bus, offsets, owns))
    decreases bus, 1, 0
  {
    CleanFrom(bus, 0, offsets, owns + [OwnOf(bus.records)]);
  }

  lemma {:induction false} CleanFrom(bus: Bus, i: nat, offsets: seq<nat>, owns: seq<Own>)
    requires Clean(bus) && i <= |bus.records|
    ensures NeverForgets(PreorderFrom(bus, i, offsets, owns))
    decreases bus, 0, |bus.records| - i
  {
    hide Malformed, OwnOf;
    if i < |bus.records| {
      var r := bus.records[i];
      if r.Bridge? {
        CleanHere(r.child);
        CleanNeverForgets(r.child, offsets + [r.first], owns);
      }
      CleanFrom(bus, i + 1, offsets, owns);
    }
  }

  lemma CleanHere(bus: Bus)
    requires Clean(bus)
    ensures !Malformed(bus)
  {
  }

  /** In a tree without malformed crossbars the search enters exactly the matching records, in preorder, each with
      what is summed up on the way to it, and cuts them at `qty`. */
  lemma SearchFinds(bus: Bus, found: seq<Location>, idx: nat, q: Query, offsets: seq<nat>, owns: seq<Own>)
    requires HeaderFirst(bus) && Clean(bus) && idx <= q.qty <= |found|
    ensures Search(bus, found, idx, Sum(q.base, offsets), MsiSum(q.msi, owns), q.last, q.qty, q.key)
         == Filled(found, idx, Matched(Preorder(bus, offsets, owns), q), q.qty)
  {
    hide Search, Preorder, Matched, HeaderFirst, Clean, Filled, Sum, MsiSum, Malformed, Forgets, KeptAt;
    CleanHere(bus);
    CleanNeverForgets(bus, offsets, owns);
    SearchCollects(bus, found, idx, q, offsets, owns);
    CollectFills(Preorder(bus, offsets, owns), found, idx, q);
  }

  // ---------------------------------------------------------------- malformed crossbars

  /** Whatever the tree: behind a bridge to a malformed crossbar the search goes on as if it had found nothing,
      even if the bridge itself matched and filled the array. */
  lemma TwoOwnsForget(bus: Bus, i: nat, found: seq<Location>, idx: nat, base: nat, msi: nat, last: nat, qty: nat,
                      key: Key)
    requires HeaderFirst(bus) && i < |bus.records| && idx < qty <= |found|
    requires bus.records[i].Bridge? && Malformed(bus.records[i].child)
    ensures var r := bus.records[i];
      var f := if Matches(r, key) then found[idx := Location(r, base, msi, Add32(msi, last))] else found;
      Scan(bus, i, found, idx, base, msi, last, qty, key) == Scan(bus, i + 1, f, 0, base, msi, last, qty, key)
  {
    hide Malformed, Matches;
    var r := bus.records[i];
    assert Look(r, found, idx, base, msi, last, qty, key).idx == 0;
  }

  /** For instance a device that comes before a malformed crossbar is lost, and the count is wrong. */
  lemma DeviceForgotten(key: Key, found: seq<Location>)
    requires |found| >= 2 && key != Key(2, 2)
    ensures var own := Msi(Key(1, 1), 0, 0, OWN_MSI);
      var tree := Bus([Interconnect, Device(key, 0, 0), Bridge(Key(2, 2), 0, 0, Bus([Interconnect, own, own]))]);
      HeaderFirst(tree) && !Malformed(tree) && Search(tree, found, 0, 0, 0, 0, 2, key).idx == 0
  {
    var own, device := Msi(Key(1, 1), 0, 0, OWN_MSI), Device(key, 0, 0);
    var inner := Bus([Interconnect, own, own]);
    var bridge := Bridge(Key(2, 2), 0, 0, inner);
    var tree := Bus([Interconnect, device, bridge]);
    OwnFlag(own);
    TwoOwns(inner.records, own);
    assert HeaderFirst(inner) && HeaderFirst(tree);
    NoOwns(tree.records, device, bridge);
    var f := found[0 := Location(device, 0, 0, 0)];
    assert Scan(tree, 0, found, 0, 0, 0, 0, 2, key) == Scan(tree, 1, found, 0, 0, 0, 0, 2, key);
    assert Look(device, found, 0, 0, 0, 0, 2, key) == Result(f, 1);
    assert Scan(tree, 1, found, 0, 0, 0, 0, 2, key) == Scan(tree, 2, f, 1, 0, 0, 0, 2, key);
    TwoOwnsForget(tree, 2, f, 1, 0, 0, 0, 2, key);
  }

  lemma OwnFlag(r: Record)
    requires r.Msi? && r.flags == OWN_MSI
    ensures IsOwn(r)
  {
  }

  lemma TwoOwns(records: seq<Record>, own: Record)
    requires records == [Interconnect, own, own] && IsOwn(own)
    ensures OwnCount(records) == 2
  {
    hide IsOwn;
    assert records[1..] == [own, own] && records[1..][1..] == [own] && [own][1..] == [];
    assert !IsOwn(Interconnect) by { NotOwn(Interconnect); }
    assert OwnCount([own]) == 1 && OwnCount([own, own]) == 2;
  }

  lemma NotOwn(r: Record)
    requires !r.Msi?
    ensures !IsOwn(r)
  {
  }

  lemma NoOwns(records: seq<Record>, a: Record, b: Record)
    requires records == [Interconnect, a, b] && !a.Msi? && !b.Msi?
    ensures OwnCount(records) == 0 && OwnOf(records) == None
  {
    assert records[1..] == [a, b] && records[1..][1..] == [b] && [b][1..] == [];
    assert OwnCount([b]) == 0 && OwnOf([b]) == None && OwnCount([a, b]) == 0 && OwnOf([a, b]) == None;
  }

  // ---------------------------------------------------------------- the sums

  function Total(offsets: seq<nat>): nat
  {
    if offsets == [] then 0 else var n := |offsets| - 1; Total(offsets[..n]) + offsets[n]
  }

  /** The address of a crossbar is the sum of the offsets of the bridges on the way, in 32 bits. */
  lemma {:induction false} SumIsTotal(base: nat, offsets: seq<nat>)
    requires base < WORD
    ensures Sum(base, offsets) == (base + Total(offsets)) % WORD
  {
    if offsets != [] {
      var n := |offsets| - 1;
      SumIsTotal(base, offsets[..n]);
      ModAdd(base + Total(offsets[..n]), offsets[n]);
    }
  }

  lemma ModAdd(a: nat, b: nat)
    ensures (a % WORD + b) % WORD == (a + b) % WORD
  {
  }

  function TotalMsi(owns: seq<Own>): nat
  {
    if owns == [] then 0
    else var n := |owns| - 1; TotalMsi(owns[..n]) + if owns[n].At? then owns[n].adr else 0
  }

  /** The sum of the own addresses, as far as crossbar `k`, is by accident the value that means no address. */
  predicate Accident(msi: nat, owns: seq<Own>, k: nat)
    requires k <= |owns|
  {
    (msi + TotalMsi(owns[..k])) % WORD == NO_MSI
  }

  /** What the MSI address is meant to be. */
  function MsiMeant(msi: nat, owns: seq<Own>): nat
  {
    if msi == NO_MSI || Unconnected in owns then NO_MSI else (msi + TotalMsi(owns)) % WORD
  }

  /** Once there is no address, there is none below. */
  lemma {:induction false} NoMsiStays(msi: nat, owns: seq<Own>, k: nat)
    requires k <= |owns| && MsiSum(msi, owns[..k]) == NO_MSI
    ensures MsiSum(msi, owns) == NO_MSI
    decreases |owns|
  {
    if k == |owns| {
      assert owns[..k] == owns;
    } else {
      var n := |owns| - 1;
      assert owns[..n][..k] == owns[..k];
      NoMsiStays(msi, owns[..n], k);
    }
  }

  lemma {:induction false} UnconnectedEnds(msi: nat, owns: seq<Own>)
    requires Unconnected in owns
    ensures MsiSum(msi, owns) == NO_MSI
  {
    var k :| 0 <= k < |owns| && owns[k] == Unconnected;
    assert owns[..k + 1][..k] == owns[..k] && owns[..k + 1][k] == Unconnected;
    NoMsiStays(msi, owns, k + 1);
  }

  /** Without an accident on the way the address is the sum. */
  lemma {:induction false} MsiIsTotal(msi: nat, owns: seq<Own>)
    requires msi < WORD && Unconnected !in owns && forall k | 0 <= k < |owns| :: !Accident(msi, owns, k)
    ensures MsiSum(msi, owns) == (msi + TotalMsi(owns)) % WORD
    decreases |owns|
  {
    if owns != [] {
      var n := |owns| - 1;
      forall k | 0 <= k < n ensures !Accident(msi, owns[..n], k) {
        assert owns[..n][..k] == owns[..k];
        assert !Accident(msi, owns, k);
      }
      MsiIsTotal(msi, owns[..n]);
      assert !Accident(msi, owns, n);
      ModAdd(msi + TotalMsi(owns[..n]), if owns[n].At? then owns[n].adr else 0);
    }
  }

  /** The first accident on the way. */
  lemma {:induction false} FirstAccident(msi: nat, owns: seq<Own>, n: nat) returns (k: nat)
    requires n < |owns| && Accident(msi, owns, n)
    ensures k <= n && Accident(msi, owns, k) && forall j | 0 <= j < k :: !Accident(msi, owns, j)
  {
    if j :| 0 <= j < n && Accident(msi, owns, j) {
      k := FirstAccident(msi, owns, j);
    } else {
      k := n;
    }
  }

  /** The address found is the one meant, except exactly if the sum of the addresses on the way is once, by accident,
      the value that means no address, and is another one in the end. */
  lemma MsiIsMeant(msi: nat, owns: seq<Own>)
    requires msi < WORD
    ensures MsiSum(msi, owns) == MsiMeant(msi, owns)
       <==> msi == NO_MSI || Unconnected in owns || Accident(msi, owns, |owns|)
            || forall k | 0 <= k < |owns| :: !Accident(msi, owns, k)
  {
    hide Accident;
    assert owns[..|owns|] == owns;
    if msi == NO_MSI {
      assert owns[..0] == [];
      NoMsiStays(msi, owns, 0);
    } else if Unconnected in owns {
      UnconnectedEnds(msi, owns);
    } else if forall k | 0 <= k < |owns| :: !Accident(msi, owns, k) {
      MsiIsTotal(msi, owns);
    } else {
      var n :| 0 <= n < |owns| && Accident(msi, owns, n);
      AccidentEnds(msi, owns, n);
      AccidentIs(msi, owns, |owns|);
    }
  }

  lemma AccidentIs(msi: nat, owns: seq<Own>, k: nat)
    requires k <= |owns|
    ensures Accident(msi, owns, k) <==> (msi + TotalMsi(owns[..k])) % WORD == NO_MSI
  {
  }

  lemma AccidentEnds(msi: nat, owns: seq<Own>, n: nat)
    requires msi < WORD && n < |owns| && Unconnected !in owns && Accident(msi, owns, n)
    ensures MsiSum(msi, owns) == NO_MSI
  {
    var k := FirstAccident(msi, owns, n);
    forall j | 0 <= j < k ensures !Accident(msi, owns[..k], j) {
      assert owns[..k][..j] == owns[..j];
      assert !Accident(msi, owns, j);
    }
    MsiIsTotal(msi, owns[..k]);
    NoMsiStays(msi, owns, k);
  }

  /** Such an accident: the first crossbar is reached at the value that means no address. */
  lemma AccidentHappens()
    ensures var owns := [At(NO_MSI), At(16)];
      MsiSum(0, owns) == NO_MSI && MsiMeant(0, owns) == NO_MSI + 16
  {
    var owns := [At(NO_MSI), At(16)];
    assert owns[..1] == [At(NO_MSI)] && owns[..1][..0] == [];
    assert MsiSum(0, owns[..1]) == NO_MSI && TotalMsi(owns[..1]) == NO_MSI;
  }

  // ---------------------------------------------------------------- the wrappers

  /** The address of a located device or bridge. */
  function SdbAdr(loc: Location): nat
  {
    if loc.sdb.Device? || loc.sdb.Bridge? then Add32(loc.adr, loc.sdb.first) else ERROR_NOT_FOUND
  }

  /** The upper end of the first record whose flags are exactly the own flag, or 0. */
  function UpperRange(records: seq<Record>): nat
  {
    if records == [] then 0
    else if records[0].Msi? && records[0].flags == OWN_MSI then records[0].last else UpperRange(records[1..])
  }

  /** `getMsiUpperRange`. */
  method GetMsiUpperRange(root: Bus) returns (adr: nat)
    ensures adr == UpperRange(root.records)
    ensures forall i | 0 <= i < |root.records| && root.records[i].Msi? && root.records[i].flags == 0x8000_0000 ::
      (forall j | 0 <= j < i :: root.records[j].Msi? ==> root.records[j].flags != 0x8000_0000)
      ==> adr == root.records[i].last
    ensures (forall j | 0 <= j < |root.records| :: root.records[j].Msi? ==> root.records[j].flags != 0x8000_0000)
      ==> adr == 0
  {
    adr := 0;
    var i := 0;
    while i < |root.records|
      invariant 0 <= i <= |root.records| && adr == 0
      invariant forall j | 0 <= j < i :: root.records[j].Msi? ==> root.records[j].flags != 0x8000_0000
      invariant UpperRange(root.records) == UpperRange(root.records[i..])
    {
      var r := root.records[i];
      assert root.records[i..][1..] == root.records[i + 1..];
      if r.Msi? && r.flags == OWN_MSI {
        adr := r.last;
        return;
      }
      i := i + 1;
    }
  }

  /** The search of the whole tree. */
  function Whole(root: Bus, qty: nat, key: Key): Query
  {
    Query(0, 0, UpperRange(root.records), qty, key)
  }

  /** All matches below `root`, with their addresses from there. */
  function AllMatches(root: Bus, key: Key): seq<Location>
  {
    Matched(Preorder(root, [], []), Whole(root, 0, key))
  }

  lemma {:induction false} RoomIsIrrelevant(vs: seq<Visit>, q: Query, qty: nat)
    ensures Matched(vs, q) == Matched(vs, q.(qty := qty))
  {
    if vs != [] { RoomIsIrrelevant(vs[1..], q, qty); }
  }

  /** `find_device_multi`: what the walk through the whole tree collects; without malformed crossbars
      the first `qty` matches. */
  method FindDeviceMulti(root: Bus, found: array<Location>, start: nat, qty: nat, key: Key) returns (idx: nat)
    requires HeaderFirst(root) && qty <= found.Length
    modifies found
    ensures Result(found[..], idx)
         == if Malformed(root) then Result(old(found[..]), 0)
            else Collect(Preorder(root, [], []), Result(old(found[..]), start), Whole(root, qty, key))
    ensures Clean(root) && start <= qty ==>
      Result(found[..], idx) == Filled(old(found[..]), start, AllMatches(root, key), qty)
  {
    hide Search, Filled, Matched, Preorder, Collect, HeaderFirst, Clean, Malformed;
    var last := GetMsiUpperRange(root);
    ghost var q := Whole(root, qty, key);
    SearchCollects(root, found[..], start, q, [], []);
    if Clean(root) && start <= qty {
      SearchFinds(root, found[..], start, q, [], []);
      RoomIsIrrelevant(Preorder(root, [], []), q, 0);
    }
    idx := FindSdbDeep(root, found, 0, 0, last, start, qty, key);
  }

  /** The locations of the matches behind which there is no malformed crossbar. */
  function Kept(vs: seq<Visit>, q: Query): seq<Location>
  {
    if vs == [] then []
    else (if Hit(vs[0], q) && !Forgets(vs[0]) then [Located(vs[0], q)] else []) + Kept(vs[1..], q)
  }

  /** The first record that matches, if there is one, is not a bridge to a malformed crossbar. */
  predicate FirstIsKept(vs: seq<Visit>, q: Query)
  {
    vs == [] || if Hit(vs[0], q) then !Forgets(vs[0]) else FirstIsKept(vs[1..], q)
  }

  lemma {:induction false} KeptAreMatches(vs: seq<Visit>, q: Query)
    ensures forall loc :: loc in Kept(vs, q) ==> loc in Matched(vs, q)
  {
    hide Forgets, Hit, Located;
    if vs != [] { KeptAreMatches(vs[1..], q); }
  }

  /** With room for one entry the search finds the first match that is kept. */
  lemma {:induction false} OneFound(vs: seq<Visit>, found: seq<Location>, q: Query)
    requires q.qty == 1 && |found| == 1
    ensures var s, ks := Collect(vs, Result(found, 0), q), Kept(vs, q);
      if ks == [] then s.idx == 0 else s.idx == 1 && s.found[0] == ks[0]
    decreases |vs|
  {
    hide Forgets, Hit, Located;
    if vs != [] && !(Hit(vs[0], q) && !Forgets(vs[0])) {
      OneFound(vs[1..], Met(vs[0], Result(found, 0), q).found, q);
    }
  }

  /** With room for one entry nothing is lost exactly if the first match is kept, and then that is what is found. */
  lemma {:induction false} FirstIsRight(vs: seq<Visit>, q: Query)
    requires q.qty == 1
    ensures NothingLost(vs, 0, q) <==> FirstIsKept(vs, q)
    ensures FirstIsKept(vs, q) ==>
      if Kept(vs, q) == [] then Matched(vs, q) == [] else Matched(vs, q) != [] && Kept(vs, q)[0] == Matched(vs, q)[0]
  {
    hide NothingLost, Forgets, Hit, Located;
    if vs == [] {
      FullOrDone(vs, 0, q);
    } else {
      NothingLostStep(vs, 0, q);
      if Hit(vs[0], q) { FullOrDone(vs[1..], 1, q); } else { FirstIsRight(vs[1..], q); }
    }
  }

  lemma {:induction false} CleanKeepsFirst(vs: seq<Visit>, q: Query)
    requires NeverForgets(vs)
    ensures FirstIsKept(vs, q)
  {
    hide Forgets, Hit, Located;
    if vs != [] {
      assert !Forgets(vs[0]);
      forall i | 0 <= i < |vs| - 1 ensures !Forgets(vs[1..][i]) { assert vs[1..][i] == vs[i + 1]; }
      CleanKeepsFirst(vs[1..], q);
    }
  }

  /** What is looked for: a device, bridge or MSI record with that key, and no malformed crossbar behind it. */
  ghost predicate Wanted(v: Visit, key: Key)
  {
    && (v.record.Device? || v.record.Bridge? || v.record.Msi?) && v.record.key == key
    && !(v.record.Bridge? && TwoOwnRecords(v.record.child.records))
  }

  ghost predicate FirstWanted(vs: seq<Visit>, k: nat, key: Key)
  {
    k < |vs| && Wanted(vs[k], key) && forall j | 0 <= j < k :: !Wanted(vs[j], key)
  }

  ghost predicate NoneWanted(vs: seq<Visit>, key: Key)
  {
    forall j | 0 <= j < |vs| :: !Wanted(vs[j], key)
  }

  lemma WantedIs(v: Visit, q: Query)
    ensures Wanted(v, q.key) <==> Hit(v, q) && !Forgets(v)
  {
    hide TwoOwnRecords, Malformed;
    if v.record.Bridge? { MalformedIs(v.record.child); }
  }

  lemma {:induction false} KeptIsFirst(vs: seq<Visit>, q: Query, k: nat)
    ensures FirstWanted(vs, k, q.key) ==> Kept(vs, q) != [] && Kept(vs, q)[0] == Located(vs[k], q)
    ensures NoneWanted(vs, q.key) ==> Kept(vs, q) == []
  {
    hide Wanted, Hit, Forgets, Located;
    if vs != [] {
      WantedIs(vs[0], q);
      var rest := vs[1..];
      if Wanted(vs[0], q.key) {
        assert FirstWanted(vs, k, q.key) ==> k == 0;
      } else {
        forall j | 0 <= j < |rest| ensures rest[j] == vs[j + 1] {}
        KeptIsFirst(rest, q, if k > 0 then k - 1 else 0);
        assert FirstWanted(vs, k, q.key) ==> k > 0 && FirstWanted(rest, k - 1, q.key);
      }
    }
  }

  /** The sum of all offsets on the way to a device or a bridge, and of its own, in 32 bits.
      Other records have no address. */
  function AdrOf(v: Visit): nat
  {
    if v.record.Device? || v.record.Bridge? then (Total(v.offsets) + v.record.first) % 0x1_0000_0000 else 0xffff_fffe
  }

  lemma AdrOfVisit(v: Visit, q: Query)
    requires q.base == 0
    ensures SdbAdr(Located(v, q)) == AdrOf(v)
  {
    SumIsTotal(0, v.offsets);
    if v.record.Device? || v.record.Bridge? { ModAdd(Total(v.offsets), v.record.first); }
  }

  /** What a location says of a visit, apart from the MSI sums. */
  lemma LocatedIs(v: Visit, root: Bus, qty: nat, key: Key)
    ensures var loc := Located(v, Whole(root, qty, key));
      && loc.sdb == v.record && loc.adr == Total(v.offsets) % 0x1_0000_0000
      && loc.msiFirst == MsiSum(0, v.owns)
      && loc.msiLast == (MsiSum(0, v.owns) + UpperRange(root.records)) % 0x1_0000_0000
  {
    SumIsTotal(0, v.offsets);
  }

  /** The address of the first of some locations, or the error value. */
  function AdrOfFirst(ls: seq<Location>): nat
  {
    if ls == [] then ERROR_NOT_FOUND else SdbAdr(ls[0])
  }

  /** `find_device_adr`: in every tree the address of the first match that is not a bridge to a malformed crossbar:
      all offsets on the way to it, and its own, added up in 32 bits.  The error value stands for no such match,
      a malformed root, or an MSI record.  In a tree without malformed crossbars it is the first match of all. */
  method FindDeviceAdr(root: Bus, key: Key) returns (adr: nat)
    requires HeaderFirst(root)
    ensures var vs := Preorder(root, [], []);
      && (TwoOwnRecords(root.records) || NoneWanted(vs, key) ==> adr == 0xffff_fffe)
      && forall k: nat | !TwoOwnRecords(root.records) && FirstWanted(vs, k, key) :: adr == AdrOf(vs[k])
    ensures var vs, q := Preorder(root, [], []), Whole(root, 1, key);
      !Malformed(root) && FirstIsKept(vs, q) ==> adr == AdrOfFirst(AllMatches(root, key))
    ensures Clean(root) ==> adr == AdrOfFirst(AllMatches(root, key))
    ensures adr == ERROR_NOT_FOUND || exists loc :: SdbAdr(loc) == adr && loc in AllMatches(root, key)
  {
    hide AllMatches, HeaderFirst, Clean, Malformed, TwoOwnRecords, Preorder, SdbAdr, Matched, Kept, FirstIsKept;
    hide Wanted, NoneWanted, NeverForgets, AdrOf, Located;
    ghost var vs, q := Preorder(root, [], []), Whole(root, 1, key);
    adr := FirstKeptAdr(root, key);
    MalformedIs(root);
    KeptIsFirst(vs, q, 0);
    forall k: nat | FirstWanted(vs, k, key)
      ensures Kept(vs, q) != [] && Kept(vs, q)[0] == Located(vs[k], q) && SdbAdr(Located(vs[k], q)) == AdrOf(vs[k])
    {
      KeptIsFirst(vs, q, k);
      AdrOfVisit(vs[k], q);
    }
  }

  /** The same in terms of the locations that the search finds. */
  method FirstKeptAdr(root: Bus, key: Key) returns (adr: nat)
    requires HeaderFirst(root)
    ensures var vs, q := Preorder(root, [], []), Whole(root, 1, key);
      && q.key == key && adr == (if Malformed(root) then ERROR_NOT_FOUND else AdrOfFirst(Kept(vs, q)))
      && (!Malformed(root) && FirstIsKept(vs, q) ==> adr == AdrOfFirst(AllMatches(root, key)))
    ensures Clean(root) ==> adr == AdrOfFirst(AllMatches(root, key))
    ensures adr == ERROR_NOT_FOUND || exists loc :: SdbAdr(loc) == adr && loc in AllMatches(root, key)
  {
    hide AllMatches, HeaderFirst, Clean, Malformed, Collect, Preorder, SdbAdr, Matched, Kept, FirstIsKept, NeverForgets;
    var found := new Location[1](i => Location(Empty, 0, 0, 0));
    ghost var empty, vs, q := found[..], Preorder(root, [], []), Whole(root, 1, key);
    OneFound(vs, empty, q);
    FirstIsRight(vs, q);
    MatchesOf(root, key, 1);
    if Clean(root) {
      CleanHere(root);
      CleanNeverForgets(root, [], []);
      CleanKeepsFirst(vs, q);
    }
    var idx := FindDeviceMulti(root, found, 0, 1, key);
    assert found[..][0] == found[0];
    KeptAreMatches(vs, q);
    adr := if idx > 0 then SdbAdr(found[0]) else ERROR_NOT_FOUND;
  }

  lemma MatchesOf(root: Bus, key: Key, qty: nat)
    ensures AllMatches(root, key) == Matched(Preorder(root, [], []), Whole(root, qty, key))
  {
    hide Matched, Preorder;
    RoomIsIrrelevant(Preorder(root, [], []), Whole(root, qty, key), 0);
  }

  /** Whatever is forgotten, what is found in the end are matches. */
  lemma {:induction false} OnlyMatches(vs: seq<Visit>, r: Result, q: Query)
    requires q.qty <= |r.found| && r.idx <= q.qty
    ensures forall j | 0 <= j < Collect(vs, r, q).idx ::
      Collect(vs, r, q).found[j] in r.found[..r.idx] || Collect(vs, r, q).found[j] in Matched(vs, q)
    decreases |vs|
  {
    hide Forgets, Hit, Located;
    if vs != [] && r.idx < q.qty {
      var s := Met(vs[0], r, q);
      OnlyMatches(vs[1..], s, q);
    }
  }

  /** `find_device_multi_in_subtree`: from a bridge that was found with visit `v`, the search collects what the search
      of the whole tree collects below it, with the same addresses. */
  method FindInSubtree(v: Visit, loc: Location, root: Bus, found: array<Location>, start: nat, qty: nat, key: Key)
    returns (idx: nat)
    requires v.record.Bridge? && HeaderFirst(v.record.child) && qty <= found.Length
    requires loc == Located(v, Whole(root, qty, key)) && loc.msiFirst < WORD
    modifies found
    ensures var vs := Preorder(v.record.child, v.offsets + [v.record.first], v.owns);
      && Result(found[..], idx)
         == (if Malformed(v.record.child) then Result(old(found[..]), 0)
             else Collect(vs, Result(old(found[..]), start), Whole(root, qty, key)))
      && (Clean(v.record.child) && start <= qty ==>
            Result(found[..], idx) == Filled(old(found[..]), start, Matched(vs, Whole(root, qty, key)), qty))
  {
    hide Search, Filled, Matched, Preorder, Collect, HeaderFirst, Clean, Malformed, Sum, MsiSum;
    var last := GetMsiUpperRange(root);
    ghost var q, offsets := Whole(root, qty, key), v.offsets + [v.record.first];
    SumLast(0, v.offsets, v.record.first);
    SearchCollects(v.record.child, found[..], start, q, offsets, v.owns);
    if Clean(v.record.child) && start <= qty {
      SearchFinds(v.record.child, found[..], start, q, offsets, v.owns);
    }
    idx := FindSdbDeep(loc.sdb.child, found, SdbAdr(loc), loc.msiFirst, last, start, qty, key);
  }
}
