/** The message buffers between the interrupt handler and the main loop. */
module MessageBuffers {
  import opened Rings

  const RING_SIZE: nat := 64

  datatype Msi = Msi(msg: bv32, adr: bv32, sel: bv32)

  class MessageBuffer {
    const ringData: array<Msi>
    var ringHead: nat
    var ringTail: nat

    ghost predicate Valid()
      reads this
    {
      ringData.Length == RING_SIZE && ringHead < RING_SIZE && ringTail < RING_SIZE
    }

    /** The messages held, oldest first. */
    ghost function Contents(): seq<Msi>
      requires Valid()
      reads this, ringData
    {
      Held(ringData[..], ringTail, ringHead)
    }

    constructor ()
      ensures Valid() && fresh(ringData) && Contents() == []
    {
      ringData := new Msi[RING_SIZE](i => Msi(0, 0, 0));
      ringHead, ringTail := 0, 0;
    }

    /** `add_msg`: a message is refused exactly if 63 are held. */
    method AddMsg(m: Msi) returns (result: int)
      requires Valid()
      modifies this`ringHead, ringData
      ensures Valid() && result == if |old(Contents())| == 63 then -1 else 0
      ensures Contents() == if result == 0 then old(Contents()) + [m] else old(Contents())
    {
      FullMeans(ringData[..], ringTail, ringHead);
      ghost var before := ringData[..];
      var next := (ringHead + 1) % RING_SIZE;
      if next != ringTail {
        Push(before, ringTail, ringHead, m);
        ringData[ringHead] := m;
        assert ringData[..] == before[ringHead := m];
        ringHead := next;
        result := 0;
      } else {
        result := -1;
      }
    }

    /** `remove_msg`: the oldest message; from an empty buffer all ones, with a selector that is not defined. */
    method RemoveMsg(undefined: bv32) returns (m: Msi)
      requires Valid()
      modifies this`ringTail
      ensures Valid()
      ensures old(Contents()) != [] ==> old(Contents()) == [m] + Contents()
      ensures old(Contents()) == [] ==> Contents() == [] && m == Msi(0xffff_ffff, 0xffff_ffff, undefined)
    {
      FullMeans(ringData[..], ringTail, ringHead);
      if ringHead != ringTail {
        Pop(ringData[..], ringTail, ringHead);
        m := ringData[ringTail];
        ringTail := (ringTail + 1) % RING_SIZE;
      } else {
        m := Msi(0xffff_ffff, 0xffff_ffff, undefined);
      }
    }

    /** `has_msg`. */
    method HasMsg() returns (has: bool)
      requires Valid()
      ensures has <==> Contents() != []
    {
      FullMeans(ringData[..], ringTail, ringHead);
      has := ringHead != ringTail;
    }
  }

  // ---------------------------------------------------------------- interrupts inside remove_msg

  /** Where the main loop is inside `remove_msg`: between which two of its memory accesses.
      The two operands of the first comparison may be read in either order. */
  datatype Place =
    | Outside
    | SawHead(head: nat, seen: nat)       // `seen` messages had been accepted by then
    | SawTail(tail: nat)
    | NotEmpty                            // the comparison was done
    | Index(at: nat)                      // the tail was read again, to find the message
    | Copied1(at: nat, msg: bv32)
    | Copied2(at: nat, msg: bv32, adr: bv32)
    | Copied(m: Msi)                      // the message was copied, field by field
    | Leaving(tail: nat, m: Msi)          // the tail was read once more, and the new one computed

  /** The buffer in memory and the main loop, with what the producer has put in and the consumer has taken out so far,
      and how many removals have found the buffer empty. */
  datatype Machine = Machine(data: seq<Msi>, head: nat, tail: nat, place: Place,
                             accepted: seq<Msi>, refused: nat, removed: seq<Msi>, empties: nat)

  /** What can happen next: an interrupt, which runs `add_msg` to its end, or one access of `remove_msg`. */
  datatype Event = Interrupt(m: Msi) | Access(headFirst: bool)

  predicate Sane(s: Machine)
  {
    && |s.data| == RING_SIZE && s.head < RING_SIZE && s.tail < RING_SIZE
    && (s.place.Index? || s.place.Copied1? || s.place.Copied2? ==> s.place.at < RING_SIZE)
    && (s.place.Leaving? ==> s.place.tail < RING_SIZE)
  }

  function Start(data: seq<Msi>): Machine
    requires |data| == RING_SIZE
  {
    Machine(data, 0, 0, Outside, [], 0, [], 0)
  }

  function Added(s: Machine, m: Msi): Machine
    requires Sane(s)
  {
    if Next(s.head, RING_SIZE) != s.tail then
      s.(data := s.data[s.head := m], head := Next(s.head, RING_SIZE), accepted := s.accepted + [m])
    else s.(refused := s.refused + 1)
  }

  function Compared(s: Machine, head: nat, tail: nat): Machine
  {
    if head != tail then s.(place := NotEmpty) else s.(place := Outside, empties := s.empties + 1)
  }

  function Accessed(s: Machine, headFirst: bool): Machine
    requires Sane(s)
  {
    match s.place
    case Outside => s.(place := if headFirst then SawHead(s.head, |s.accepted|) else SawTail(s.tail))
    case SawHead(head, _) => Compared(s, head, s.tail)
    case SawTail(tail) => Compared(s, s.head, tail)
    case NotEmpty => s.(place := Index(s.tail))
    case Index(at) => s.(place := Copied1(at, s.data[at].msg))
    case Copied1(at, msg) => s.(place := Copied2(at, msg, s.data[at].adr))
    case Copied2(at, msg, adr) => s.(place := Copied(Msi(msg, adr, s.data[at].sel)))
    case Copied(m) => s.(place := Leaving(Next(s.tail, RING_SIZE), m))
    case Leaving(tail, m) => s.(place := Outside, tail := tail, removed := s.removed + [m])
  }

  function Happens(s: Machine, e: Event): Machine
    requires Sane(s)
  {
    match e
    case Interrupt(m) => Added(s, m)
    case Access(headFirst) => Accessed(s, headFirst)
  }

  /** The place agrees with the buffer: what has been read is still true, or was true and is still good enough. */
  predicate PlaceOk(s: Machine)
    requires Sane(s)
  {
    var held := Held(s.data, s.tail, s.head);
    match s.place
    case Outside => true
    case SawHead(head, seen) => |s.removed| <= seen <= |s.accepted| && (head == s.tail <==> seen == |s.removed|)
    case SawTail(tail) => tail == s.tail
    case NotEmpty => held != []
    case Index(at) => held != [] && at == s.tail
    case Copied1(at, msg) => held != [] && at == s.tail && msg == held[0].msg
    case Copied2(at, msg, adr) => held != [] && at == s.tail && msg == held[0].msg && adr == held[0].adr
    case Copied(m) => held != [] && m == held[0]
    case Leaving(tail, m) => held != [] && m == held[0] && tail == Next(s.tail, RING_SIZE)
  }

  /** What was taken out and what is held is what was put in. */
  predicate Inv(s: Machine)
  {
    && Sane(s)
    && s.removed + Held(s.data, s.tail, s.head) == s.accepted
    && PlaceOk(s)
  }

  lemma StartIsInv(data: seq<Msi>)
    requires |data| == RING_SIZE
    ensures Inv(Start(data))
  {
  }

  /** An interrupt refuses its message exactly if 63 are held, and leaves the message that is being copied alone. */
  lemma AddKeepsInv(s: Machine, m: Msi)
    requires Inv(s)
    ensures var r := Added(s, m);
      && Inv(r)
      && (r.refused != s.refused <==> |s.accepted| - |s.removed| == 63)
      && (r.refused == s.refused ==> r.accepted == s.accepted + [m])
      && (r.refused != s.refused ==> r.accepted == s.accepted)
  {
    FullMeans(s.data, s.tail, s.head);
    if Next(s.head, RING_SIZE) != s.tail {
      Push(s.data, s.tail, s.head, m);
      var r := Added(s, m);
      assert Held(r.data, r.tail, r.head) == Held(s.data, s.tail, s.head) + [m];
      assert s.removed + (Held(s.data, s.tail, s.head) + [m]) == (s.removed + Held(s.data, s.tail, s.head)) + [m];
    }
  }

  /** Looking and copying leave the buffer as it is. */
  lemma LookKeepsInv(s: Machine, headFirst: bool)
    requires Inv(s) && !s.place.Leaving?
    ensures Inv(Accessed(s, headFirst))
  {
    hide Held;
    FullMeans(s.data, s.tail, s.head);
    if Held(s.data, s.tail, s.head) != [] {
      Pop(s.data, s.tail, s.head);
    }
  }

  lemma LeaveKeepsInv(s: Machine, headFirst: bool)
    requires Inv(s) && s.place.Leaving?
    ensures Inv(Accessed(s, headFirst))
  {
    hide Held;
    FullMeans(s.data, s.tail, s.head);
    Pop(s.data, s.tail, s.head);
    var rest := Held(s.data, Next(s.tail, RING_SIZE), s.head);
    assert (s.removed + [s.place.m]) + rest == s.removed + ([s.place.m] + rest);
  }

  lemma AccessKeepsInv(s: Machine, headFirst: bool)
    requires Inv(s)
    ensures Inv(Accessed(s, headFirst))
  {
    hide Accessed, PlaceOk;
    if s.place.Leaving? { LeaveKeepsInv(s, headFirst); } else { LookKeepsInv(s, headFirst); }
  }

  lemma HappensKeepsInv(s: Machine, e: Event)
    requires Inv(s)
    ensures Inv(Happens(s, e))
  {
    hide Inv, Added, Accessed;
    InvIsSane(s);
    match e {
      case Interrupt(m) => AddKeepsInv(s, m);
      case Access(headFirst) => AccessKeepsInv(s, headFirst);
    }
  }

  lemma InvIsSane(s: Machine)
    requires Inv(s)
    ensures Sane(s)
  {
  }

  /** A run of the machine; what cannot be reached is of no interest. */
  ghost predicate Runs(s: Machine, events: seq<Event>, r: Machine)
    decreases |events|
  {
    if events == [] then s == r else Sane(s) && Runs(Happens(s, events[0]), events[1..], r)
  }

  /** However interrupts fall between the accesses of `remove_msg`, the messages removed are, in order and unharmed,
      the first of the messages accepted, and no more than 63 are held. */
  lemma {:induction false} RemovedIsPrefix(s: Machine, events: seq<Event>, r: Machine)
    requires Inv(s) && Runs(s, events, r)
    ensures Inv(r) && r.removed <= r.accepted && |r.accepted| - |r.removed| <= 63
    decreases |events|
  {
    hide Happens;
    if events == [] {
      FullMeans(r.data, r.tail, r.head);
    } else {
      HappensKeepsInv(s, events[0]);
      RemovedIsPrefix(Happens(s, events[0]), events[1..], r);
    }
  }

  /** No run is cut short. */
  lemma {:induction false} EveryRunGoesOn(s: Machine, events: seq<Event>) returns (r: Machine)
    requires Inv(s)
    ensures Runs(s, events, r)
    decreases |events|
  {
    hide Happens;
    if events == [] {
      r := s;
    } else {
      HappensKeepsInv(s, events[0]);
      r := EveryRunGoesOn(Happens(s, events[0]), events[1..]);
    }
  }

  /** A removal finds nothing exactly if all that had been accepted when it read the head has been removed:
      no message that was there when the main loop looked is overlooked. */
  lemma EmptyIsTrue(s: Machine, headFirst: bool)
    requires Inv(s) && (s.place.SawHead? || s.place.SawTail?)
    ensures var r := Accessed(s, headFirst);
      && (r.place == Outside <==> (if s.place.SawHead? then s.place.seen else |s.accepted|) == |s.removed|)
      && r.empties == s.empties + if r.place == Outside then 1 else 0
  {
    FullMeans(s.data, s.tail, s.head);
  }

  function Accesses(s: Machine, n: nat): Machine
    requires Inv(s)
    decreases n
  {
    if n == 0 then s
    else AccessKeepsInv(s, true); Accesses(Accessed(s, true), n - 1)
  }

  /** Undisturbed, the eight accesses are a removal of the oldest message in one piece. */
  lemma UndisturbedRemove(s: Machine)
    requires Inv(s) && s.place == Outside && s.removed < s.accepted
    ensures var r := Accesses(s, 8);
      r == s.(tail := Next(s.tail, RING_SIZE), removed := s.removed + [Held(s.data, s.tail, s.head)[0]])
  {
    FullMeans(s.data, s.tail, s.head);
    Pop(s.data, s.tail, s.head);
    var m := s.data[s.tail];
    AccessKeepsInv(s, true);
    var p := s.(place := NotEmpty);
    assert Accesses(s, 8) == Accesses(Accessed(s, true), 7) == Accesses(p, 6);
    var q := s.(place := Copied1(s.tail, m.msg));
    assert Accesses(p, 6) == Accesses(s.(place := Index(s.tail)), 5) == Accesses(q, 4);
    assert Accesses(q, 4)
           == Accesses(s.(place := Copied2(s.tail, m.msg, m.adr)), 3)
           == Accesses(s.(place := Copied(m)), 2);
  }
}
