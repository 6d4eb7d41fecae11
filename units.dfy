// size_unit: a size rendered with the largest unit it holds at least four
// times. The three revisions share the same table and loop; the text the
// C code formats with sprintf is modelled as the (value, unit name) pair.
module Units {
  import opened Common

  /** One row of the table: the unit of u bytes is chosen when the size is
      at least k * u. */
  datatype Unit = Unit(k: nat, u: nat, name: string)

  const UNITS: seq<Unit> := [
    Unit(4, 1024 * 1024 * 1024, "Gb"),
    Unit(4, 1024 * 1024, "Mb"),
    Unit(4, 1024, "Kb"),
    Unit(0, 1, "bytes")
  ]

  /** What sprintf writes into the output buffer: size / u, then the name. */
  datatype Amount = Amount(value: nat, unit: string)

  predicate Fits(size: nat, i: nat)
    requires i < |UNITS|
  {
    size >= UNITS[i].k * UNITS[i].u
  }

  /** The first row from index i on that fits (the last row always does). */
  function FirstFit(size: nat, i: nat): (j: nat)
    requires i < |UNITS|
    ensures i <= j < |UNITS| && Fits(size, j)
    ensures forall m :: i <= m < j ==> !Fits(size, m)
    decreases |UNITS| - i
  {
    if Fits(size, i) then i else FirstFit(size, i + 1)
  }

  /** The loop over the table: the first row that fits is formatted and the
      loop stops; if none did, the buffer would stay empty (None). */
  method SizeUnit(size: nat) returns (r: Option<Amount>)
    ensures r == Some(Amount(size / UNITS[FirstFit(size, 0)].u, UNITS[FirstFit(size, 0)].name))
  {
    r := None;
    var i := 0;
    while i < |UNITS|
      invariant 0 <= i <= |UNITS|
      invariant forall m :: 0 <= m < i ==> !Fits(size, m)
      invariant r == None
    {
      if size >= UNITS[i].k * UNITS[i].u {
        r := Some(Amount(size / UNITS[i].u, UNITS[i].name));
        break;
      }
      i := i + 1;
    }
    assert i < |UNITS| by {
      if i == |UNITS| {
        assert Fits(size, 3);
      }
    }
  }

  /** The amount shown: size / u for the largest unit that fits at least
      four times, so the value lies between 4 and 4095 except in bytes
      (below 4096) and in Gb (unbounded). */
  lemma SizeUnitRange(size: nat)
    ensures var j := FirstFit(size, 0);
            var v := size / UNITS[j].u;
            && v * UNITS[j].u <= size < (v + 1) * UNITS[j].u
            && (UNITS[j].name != "bytes" ==> 4 <= v)
            && (UNITS[j].name != "Gb" ==> v < 4096)
            && (UNITS[j].name == "bytes" <==> size < 4 * 1024)
  {
    var j := FirstFit(size, 0);
    assert j == 0 || j == 1 || j == 2 || j == 3;
  }

  /** 4095 bytes are shown as "4095 bytes", 4096 bytes as "4 Kb". */
  lemma SizeUnitBoundary()
    ensures FirstFit(4095, 0) == 3 && 4095 / UNITS[3].u == 4095 && UNITS[3].name == "bytes"
    ensures FirstFit(4096, 0) == 2 && 4096 / UNITS[2].u == 4 && UNITS[2].name == "Kb"
  {
    assert !Fits(4095, 0) && !Fits(4095, 1) && !Fits(4095, 2) && Fits(4095, 3);
    assert !Fits(4096, 0) && !Fits(4096, 1) && Fits(4096, 2);
  }
}
