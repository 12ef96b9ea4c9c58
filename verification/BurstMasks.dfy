/** Sets of bursts as the firmware keeps them: bit `id - 1` of a 32-bit word stands for burst `id`. */
module BurstMasks {

  const N_BURSTS: nat := 17

  /** The ids of real bursts; task 0 is a dummy. */
  predicate IsBurst(id: int)
  {
    0 < id < N_BURSTS
  }

  /** `0x1 << (id - 1)`. */
  function Bit(id: nat): bv32
    requires IsBurst(id)
  {
    match id
    case 1 => 0x1 case 2 => 0x2 case 3 => 0x4 case 4 => 0x8
    case 5 => 0x10 case 6 => 0x20 case 7 => 0x40 case 8 => 0x80
    case 9 => 0x100 case 10 => 0x200 case 11 => 0x400 case 12 => 0x800
    case 13 => 0x1000 case 14 => 0x2000 case 15 => 0x4000 case _ => 0x8000
  }

  // What the firmware writes as `&`, `|=` and `&= ~`.
  function And(m: bv32, b: bv32): bv32 { m & b }
  predicate Meets(m: bv32, b: bv32) { And(m, b) != 0 }
  function Or(m: bv32, b: bv32): bv32 { m | b }
  function AndNot(m: bv32, b: bv32): bv32 { m & !b }

  predicate Has(m: bv32, id: nat)
    requires IsBurst(id)
  {
    Meets(m, Bit(id))
  }

  function With(m: bv32, id: nat): bv32
    requires IsBurst(id)
  {
    Or(m, Bit(id))
  }

  function Without(m: bv32, id: nat): bv32
    requires IsBurst(id)
  {
    AndNot(m, Bit(id))
  }

  /** No bit beyond the last burst is set. */
  predicate Small(m: bv32)
  {
    m & 0xffff_0000 == 0
  }

  predicate OneBit(a: bv32)
  {
    a != 0 && a & (a - 1) == 0 && a & 0xffff_0000 == 0
  }

  lemma BitIsShift(id: nat)
    requires IsBurst(id)
    ensures Bit(id) == (1 as bv32) << (id - 1)
  {
    if id == 1 {} else if id == 2 {} else if id == 3 {} else if id == 4 {} else if id == 5 {} else if id == 6 {}
    else if id == 7 {} else if id == 8 {} else if id == 9 {} else if id == 10 {} else if id == 11 {} else if id == 12 {}
    else if id == 13 {} else if id == 14 {} else if id == 15 {} else {}
  }

  lemma BitIsOne(id: nat)
    requires IsBurst(id)
    ensures OneBit(Bit(id))
  {
  }

  lemma BitsDiffer(a: nat, b: nat)
    requires IsBurst(a) && IsBurst(b) && a != b
    ensures Bit(a) != Bit(b)
  {
  }

  lemma OneBitsApart(a: bv32, b: bv32)
    requires OneBit(a) && OneBit(b) && a != b
    ensures a & b == 0
  {
  }

  lemma ApartOr(m: bv32, a: bv32, b: bv32)
    requires a & b == 0
    ensures (m | a) & b == m & b
  {
  }

  lemma ApartNot(m: bv32, a: bv32, b: bv32)
    requires a & b == 0
    ensures (m & !a) & b == m & b
  {
  }

  lemma MeetsOther(m: bv32, a: bv32, b: bv32)
    requires OneBit(a) && OneBit(b) && a != b
    ensures Meets(Or(m, a), b) == Meets(m, b) && Meets(AndNot(m, a), b) == Meets(m, b)
  {
    OneBitsApart(a, b);
    ApartOr(m, a, b);
    ApartNot(m, a, b);
  }

  lemma MeetsSame(m: bv32, a: bv32)
    requires OneBit(a)
    ensures Meets(Or(m, a), a) && !Meets(AndNot(m, a), a)
  {
  }

  lemma HasWith(m: bv32, a: nat, b: nat)
    requires IsBurst(a) && IsBurst(b)
    ensures Has(With(m, a), b) <==> a == b || Has(m, b)
    ensures Has(Without(m, a), b) <==> a != b && Has(m, b)
  {
    hide Bit, OneBit, Meets, Or, AndNot;
    BitIsOne(a);
    BitIsOne(b);
    if a == b {
      MeetsSame(m, Bit(a));
    } else {
      BitsDiffer(a, b);
      MeetsOther(m, Bit(a), Bit(b));
    }
  }

  lemma AndOr(m: bv32, n: bv32, b: bv32)
    ensures And(Or(m, n), b) == Or(And(m, b), And(n, b))
  {
  }

  lemma OrZero(p: bv32, q: bv32)
    ensures Or(p, q) == 0 <==> p == 0 && q == 0
  {
  }

  lemma MeetsJoin(m: bv32, n: bv32, b: bv32)
    ensures Meets(Or(m, n), b) <==> Meets(m, b) || Meets(n, b)
  {
    hide And, Or;
    AndOr(m, n, b);
    OrZero(And(m, b), And(n, b));
  }

  lemma HasJoin(m: bv32, n: bv32, b: nat)
    requires IsBurst(b)
    ensures Has(Or(m, n), b) <==> Has(m, b) || Has(n, b)
  {
    hide Bit, Meets, Or;
    MeetsJoin(m, n, Bit(b));
  }

  lemma MeetsNone(b: bv32)
    ensures !Meets(0, b)
  {
  }

  lemma HasNone(b: nat)
    requires IsBurst(b)
    ensures !Has(0, b)
  {
    hide Bit, Meets;
    MeetsNone(Bit(b));
  }

  lemma SmallKept(m: bv32, a: bv32)
    requires Small(m)
    ensures Small(AndNot(m, a))
    ensures OneBit(a) ==> Small(Or(m, a))
  {
  }

  lemma StaysSmall(m: bv32, id: nat)
    requires Small(m) && IsBurst(id)
    ensures Small(With(m, id)) && Small(Without(m, id))
  {
    hide Bit, Small, OneBit, Or, AndNot;
    BitIsOne(id);
    SmallKept(m, Bit(id));
  }

  lemma SmallNonzero(m: bv32)
    requires Small(m) && m != 0
    ensures Meets(m, 0x1) || Meets(m, 0x2) || Meets(m, 0x4) || Meets(m, 0x8)
         || Meets(m, 0x10) || Meets(m, 0x20) || Meets(m, 0x40) || Meets(m, 0x80)
         || Meets(m, 0x100) || Meets(m, 0x200) || Meets(m, 0x400) || Meets(m, 0x800)
         || Meets(m, 0x1000) || Meets(m, 0x2000) || Meets(m, 0x4000) || Meets(m, 0x8000)
  {
  }

  /** A small set that is not empty has a burst in it. */
  lemma SomeBurst(m: bv32) returns (id: nat)
    requires Small(m) && m != 0
    ensures IsBurst(id) && Has(m, id)
  {
    hide Small, Meets;
    SmallNonzero(m);
    id := if Meets(m, 0x1) then 1 else if Meets(m, 0x2) then 2 else if Meets(m, 0x4) then 3 else if Meets(m, 0x8) then 4
      else if Meets(m, 0x10) then 5 else if Meets(m, 0x20) then 6
      else if Meets(m, 0x40) then 7 else if Meets(m, 0x80) then 8
      else if Meets(m, 0x100) then 9 else if Meets(m, 0x200) then 10 else if Meets(m, 0x400) then 11
      else if Meets(m, 0x800) then 12 else if Meets(m, 0x1000) then 13 else if Meets(m, 0x2000) then 14
      else if Meets(m, 0x4000) then 15 else 16;
  }

  lemma WithIsNotEmpty(m: bv32, id: nat)
    requires IsBurst(id)
    ensures With(m, id) != 0
  {
    hide With;
    HasWith(m, id, id);
    if With(m, id) == 0 { HasNone(id); }
  }

  lemma WithoutEmpty(id: nat)
    requires IsBurst(id)
    ensures Without(0, id) == 0
  {
    hide Bit;
    NothingTaken(Bit(id));
  }

  lemma NothingTaken(b: bv32)
    ensures AndNot(0, b) == 0
  {
  }

  // ---------------------------------------------------------------- setting a bit to a value

  function SetTo(m: bv32, id: nat, x: bool): bv32
    requires IsBurst(id)
  {
    if x then With(m, id) else Without(m, id)
  }

  lemma OrOr(m: bv32, a: bv32) ensures Or(Or(m, a), a) == Or(m, a) {}
  lemma NotNot(m: bv32, a: bv32) ensures AndNot(AndNot(m, a), a) == AndNot(m, a) {}

  lemma MeetsIsThere(m: bv32, a: bv32)
    requires OneBit(a)
    ensures if Meets(m, a) then Or(m, a) == m else AndNot(m, a) == m
  {
  }

  lemma SetSame(m: bv32, id: nat)
    requires IsBurst(id)
    ensures SetTo(m, id, Has(m, id)) == m
  {
    hide Bit, OneBit, Meets, Or, AndNot;
    BitIsOne(id);
    MeetsIsThere(m, Bit(id));
  }

  lemma SetTwice(m: bv32, id: nat, x: bool, y: bool)
    requires IsBurst(id) && (x == y || x == Has(m, id))
    ensures SetTo(SetTo(m, id, x), id, y) == SetTo(m, id, y)
  {
    hide Bit, Or, AndNot, Has;
    if x == y {
      OrOr(m, Bit(id));
      NotNot(m, Bit(id));
    } else {
      SetSame(m, id);
    }
  }

  lemma HasSetTo(m: bv32, a: nat, x: bool, b: nat)
    requires IsBurst(a) && IsBurst(b)
    ensures Has(SetTo(m, a, x), b) <==> if a == b then x else Has(m, b)
  {
    hide Has, With, Without;
    HasWith(m, a, b);
  }
}
