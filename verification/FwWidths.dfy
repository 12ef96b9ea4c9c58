/** Which access widths the loader uses: sets of widths are bits, width 1, 2, 4 or 8. */
module FwWidths {
  import opened FwPlan

  predicate IsWidth(b: bv8)
  {
    b == 1 || b == 2 || b == 4 || b == 8
  }

  /** A width in bytes. */
  function Size(b: bv8): nat
    requires IsWidth(b)
  {
    if b == 1 then 1 else if b == 2 then 2 else if b == 4 then 4 else 8
  }

  /** The widest of some widths: smear the highest bit to the right and keep its edge. */
  function Widest(sizes: bv8): bv8
  {
    var a := sizes | (sizes >> 1);
    var b := a | (a >> 2);
    b ^ (b >> 1)
  }

  function Narrowest(sizes: bv8): bv8
  {
    sizes & (0 - sizes)
  }

  lemma WidestIs(sizes: bv8, b: bv8)
    requires 0 < sizes < 16 && IsWidth(b)
    ensures IsWidth(Widest(sizes)) && sizes & Widest(sizes) != 0 && (sizes & b != 0 ==> b <= Widest(sizes))
  {
  }

  lemma NarrowestIs(sizes: bv8, b: bv8)
    requires 0 < sizes < 16 && IsWidth(b)
    ensures IsWidth(Narrowest(sizes)) && sizes & Narrowest(sizes) != 0 && (sizes & b != 0 ==> Narrowest(sizes) <= b)
  {
  }

  lemma LineWidths(line: bv8, device: bv8, b: bv8)
    requires IsWidth(line) && IsWidth(b)
    ensures var sizes := ((line << 1) - 1) & device;
      sizes < 16 && (sizes & b != 0 <==> device & b != 0 && b <= line)
  {
  }

  lemma SizesOrdered(edge: bv8, bulk: bv8)
    requires IsWidth(edge) && IsWidth(bulk) && edge <= bulk
    ensures Widths(Size(edge), Size(bulk))
  {
  }

  predicate Usable(line: bv8, device: bv8, b: bv8)
  {
    IsWidth(b) && device & b != 0 && b <= line
  }

  /** `bulk` and `edge`: the widest and the narrowest width that the device has and the line is wide enough for,
      if there is one at all. */
  method PickWidths(line: bv8, device: bv8) returns (ok: bool, bulk: bv8, edge: bv8)
    requires IsWidth(line)
    ensures ok <==> exists b :: Usable(line, device, b)
    ensures ok ==> Usable(line, device, bulk) && Usable(line, device, edge) && Widths(Size(edge), Size(bulk))
    ensures forall b | Usable(line, device, b) :: edge <= b <= bulk
  {
    hide IsWidth, Widest, Narrowest;
    var sizes := ((line << 1) - 1) & device;
    bulk, edge := Widest(sizes), Narrowest(sizes);
    ok := sizes != 0;
    PickedWidths(line, device, sizes);
  }

  lemma PickedWidths(line: bv8, device: bv8, sizes: bv8)
    requires IsWidth(line) && sizes == ((line << 1) - 1) & device
    ensures sizes != 0 <==> exists b :: Usable(line, device, b)
    ensures sizes != 0 ==> Usable(line, device, Widest(sizes)) && Usable(line, device, Narrowest(sizes))
    ensures sizes != 0 ==> Widths(Size(Narrowest(sizes)), Size(Widest(sizes)))
    ensures forall b | Usable(line, device, b) :: Narrowest(sizes) <= b <= Widest(sizes)
  {
    hide IsWidth, Widest, Narrowest, Size;
    OneIsWidth();
    LineWidths(line, device, 1);
    if sizes != 0 {
      WidestIs(sizes, 1);
      NarrowestIs(sizes, 1);
      LineWidths(line, device, Widest(sizes));
      LineWidths(line, device, Narrowest(sizes));
      WidestIs(sizes, Narrowest(sizes));
      SizesOrdered(Narrowest(sizes), Widest(sizes));
      assert Usable(line, device, Widest(sizes));
    }
    forall b | Usable(line, device, b)
      ensures sizes != 0 && Narrowest(sizes) <= b <= Widest(sizes)
    {
      LineWidths(line, device, b);
      AndZero(b);
      WidestIs(sizes, b);
      NarrowestIs(sizes, b);
    }
  }

  lemma OneIsWidth()
    ensures IsWidth(1)
  {
  }

  lemma AndZero(b: bv8)
    ensures 0 & b == 0
  {
  }
}
