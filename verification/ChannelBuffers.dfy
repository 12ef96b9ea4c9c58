/** The parameter buffers of the function generators: a ring that overwrites its oldest entry. */
module ChannelBuffers {
  import opened Rings

  const BUFFER_SIZE: nat := 121

  class ChannelBuffer<T(==)> {
    const pset: array<T>
    var wrPtr: nat
    var rdPtr: nat
    ghost var written: seq<T>       // everything ever written
    ghost var taken: nat            // how many of them have been read or dropped

    ghost predicate Valid()
      reads this, pset
    {
      && pset.Length == BUFFER_SIZE && wrPtr < BUFFER_SIZE && rdPtr < BUFFER_SIZE
      && taken <= |written| && written[taken..] == Held(pset[..], rdPtr, wrPtr)
    }

    ghost function Contents(): seq<T>
      requires Valid()
      reads this, pset
    {
      Held(pset[..], rdPtr, wrPtr)
    }

    constructor (zero: T)
      ensures Valid() && fresh(pset) && Contents() == [] && written == []
    {
      pset := new T[BUFFER_SIZE](i => zero);
      wrPtr, rdPtr, written, taken := 0, 0, [], 0;
    }

    /** `cbWrite`: always stores the element; a full buffer loses its oldest one. */
    method Write(x: T)
      requires Valid()
      modifies this, pset
      ensures Valid() && written == old(written) + [x]
      ensures Contents() == Newest(old(Contents()) + [x], 120)
      ensures |old(Contents())| <= 120
      ensures Contents() == (if |old(Contents())| < 120 then old(Contents()) else old(Contents())[1..]) + [x]
    {
      hide Newest;
      NewestMore(Contents(), BUFFER_SIZE - 1, x);
      NewestOfFew(Contents(), BUFFER_SIZE - 1);
      FullMeans(pset[..], rdPtr, wrPtr);
      ghost var before := pset[..];
      var wptr := wrPtr;
      pset[wptr] := x;
      assert pset[..] == before[wptr := x];
      wrPtr := (wptr + 1) % BUFFER_SIZE;
      ghost var dropped := wrPtr == rdPtr;
      if dropped { PushOver(before, rdPtr, wptr, x); } else { Push(before, rdPtr, wptr, x); }
      if wrPtr == rdPtr {
        rdPtr := (rdPtr + 1) % BUFFER_SIZE;
      }
      assert (written + [x])[taken..] == written[taken..] + [x];
      written := written + [x];
      if dropped {
        assert written[taken + 1..] == written[taken..][1..];
        taken := taken + 1;
      }
    }

    /** `cbRead`: the oldest element, if there is one. */
    method Read(pset0: T) returns (ok: bool, x: T)
      requires Valid()
      modifies this`rdPtr, this`taken
      ensures Valid() && ok == (old(Contents()) != [])
      ensures if ok then old(Contents()) == [x] + Contents() else x == pset0 && Contents() == []
    {
      FullMeans(pset[..], rdPtr, wrPtr);
      x := pset0;
      var rptr, wptr := rdPtr, wrPtr;
      if wptr == rptr {
        return false, x;
      }
      Pop(pset[..], rptr, wptr);
      x := pset[rptr];
      rdPtr := (rptr + 1) % BUFFER_SIZE;
      assert written[taken + 1..] == written[taken..][1..];
      taken := taken + 1;
      ok := true;
    }

    /** `cbisEmpty`. */
    method IsEmpty() returns (r: bool)
      requires Valid()
      ensures r <==> Contents() == []
    {
      FullMeans(pset[..], rdPtr, wrPtr);
      r := wrPtr == rdPtr;
    }

    /** `cbgetCount`. */
    method GetCount() returns (n: nat)
      requires Valid()
      ensures n == |Contents()|
    {
      if wrPtr > rdPtr {
        n := wrPtr - rdPtr;
      } else if rdPtr > wrPtr {
        n := BUFFER_SIZE - rdPtr + wrPtr;
      } else {
        n := 0;
      }
    }

    /** `cbisFull`. */
    method IsFull() returns (r: bool)
      requires Valid()
      ensures r <==> |Contents()| == 120
    {
      FullMeans(pset[..], rdPtr, wrPtr);
      r := (wrPtr + 1) % BUFFER_SIZE == rdPtr;
    }
  }

  lemma NewestOfFew<T>(s: seq<T>, n: nat)
    requires |s| <= n
    ensures Newest(s, n) == s
  {
  }

  /** What a buffer that holds `held` holds after each of `more` has been written. */
  function AfterWrites<T>(held: seq<T>, more: seq<T>): seq<T>
    decreases |more|
  {
    if more == [] then held else AfterWrites(Newest(held + [more[0]], BUFFER_SIZE - 1), more[1..])
  }

  lemma WritesKeepNewest<T>(history: seq<T>, n: nat, more: seq<T>)
    requires n >= 1
    ensures Newest(Newest(history, n) + more, n) == Newest(history + more, n)
  {
  }

  /** After any number of writes: the newest 120 of what was held and all that was written, in order. */
  lemma {:induction false} AnyWrites<T>(held: seq<T>, more: seq<T>)
    requires |held| < BUFFER_SIZE
    ensures AfterWrites(held, more) == Newest(held + more, BUFFER_SIZE - 1)
    decreases |more|
  {
    hide Newest;
    if more == [] {
      assert held + [] == held;
      NewestOfFew(held, BUFFER_SIZE - 1);
    } else {
      var first := held + [more[0]];
      NewestIsFew(first, BUFFER_SIZE - 1);
      AnyWrites(Newest(first, BUFFER_SIZE - 1), more[1..]);
      WritesKeepNewest(first, BUFFER_SIZE - 1, more[1..]);
      assert first + more[1..] == held + more;
    }
  }

  lemma NewestIsFew<T>(s: seq<T>, n: nat)
    ensures |Newest(s, n)| <= n
  {
  }
}
