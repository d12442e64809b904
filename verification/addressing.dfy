/**
 * How the library numbers a PMAC's axes: the MACRO station that serves each MACRO ring axis,
 * the block of "I7000+" I-variables of each on-board Geo Brick axis, and how many MACRO axes
 * the controller's MACRO ICs can drive.
 */
module Addressing {
  import opened Py

  /** The MACRO station of the 1st, 2nd, ... MACRO ring axis. */
  const MacroStationTable: seq<int> :=
    [0, 1, 4, 5, 8, 9, 12, 13, 16, 17, 20, 21, 24, 25, 28, 29, 32, 33,
     36, 37, 40, 41, 44, 45, 48, 49, 52, 53, 56, 57, 60, 61, 64, 65]

  /** Stations come in pairs four apart: the table skips the stations 2 and 3 of every group of four. */
  lemma TableFormula(k: nat)
    requires k < |MacroStationTable|
    ensures MacroStationTable[k] == 4 * (k / 2) + k % 2
  {
  }

  /** No two MACRO axes share a station, and later axes have higher stations. */
  lemma TableIncreasing(i: nat, j: nat)
    requires i < j < |MacroStationTable|
    ensures MacroStationTable[i] < MacroStationTable[j]
  {
    TableFormula(i);
    TableFormula(j);
  }

  /**
   * The station of the k-th MACRO axis, read as table[k - 1] with Python's indexing: k = 0
   * reads the last entry, and an index past either end raises IndexError.
   */
  function StationOfMacroAxis(k: int): (r: Result<int>)
    ensures 1 <= k <= |MacroStationTable| ==> r == Ok(MacroStationTable[k - 1])
    ensures k == 0 ==> r == Ok(65)
    ensures r.Raised? <==> k < 1 - |MacroStationTable| || k > |MacroStationTable|
    ensures r.Raised? ==> r.exc == IndexError
  {
    match PyIndex(MacroStationTable, k - 1)
    case None => Raised(IndexError)
    case Some(v) => Ok(v)
  }

  /**
   * The first of the I-variables "I7mn0 .. I7mn9" that set up an on-board axis: m is the
   * group of four axes the axis belongs to and n its place (1 to 4) in that group. Python's
   * floor division and modulo, which Dafny's agree with for the divisor 4.
   */
  function I7000Base(axis: int): int
  {
    7000 + ((axis - 1) / 4) * 100 + ((axis - 1) % 4 + 1) * 10
  }

  /**
   * The eight on-board axes of a Geo Brick get the bases 7010, 7020, 7030, 7040, 7110, 7120,
   * 7130, 7140: every base is a multiple of ten in 7010 .. 7140, so each axis owns ten
   * I-variables, and the blocks of two different axes never overlap.
   */
  lemma I7000BlocksDisjoint(a: int, b: int)
    requires 1 <= a < b <= 8
    ensures I7000Base(a) % 10 == 0 && 7010 <= I7000Base(a) <= 7140
    ensures I7000Base(a) + 10 <= I7000Base(b)
  {
    assert (a - 1) / 4 <= (b - 1) / 4;
    if (a - 1) / 4 == (b - 1) / 4 {
      assert (a - 1) % 4 < (b - 1) % 4;
    }
  }

  /** How many of the first k MACRO IC base addresses read back as present (not "$0"). */
  function PresentIcs(bases: seq<string>, k: nat): (r: nat)
    requires k <= |bases|
    ensures r <= k
    ensures r == 0 <==> forall i :: 0 <= i < k ==> bases[i] == "$0"
  {
    if k == 0 then 0 else PresentIcs(bases, k - 1) + (if bases[k - 1] != "$0" then 1 else 0)
  }

  /**
   * The number of MACRO axes from the base addresses read from I20 .. I23: eight for every
   * MACRO IC present; IndexError when fewer than four values came back.
   */
  function MacroAxesFromBases(bases: seq<string>): (r: Result<int>)
    ensures r.Ok? <==> |bases| >= 4
    ensures r.Raised? ==> r.exc == IndexError
    ensures r.Ok? ==> r.value in {0, 8, 16, 24, 32}
    ensures r.Ok? ==> (r.value == 0 <==> bases[0] == bases[1] == bases[2] == bases[3] == "$0")
    ensures r.Ok? ==> r.value == 8 * |PresentSet(bases, 4)|
  {
    if |bases| < 4 then Raised(IndexError)
    else
      PresentIcsCount(bases, 4);
      Ok(8 * PresentIcs(bases, 4))
  }

  /** The indices below k whose base address reads back as present. */
  function PresentSet(bases: seq<string>, k: nat): set<nat>
    requires k <= |bases|
  {
    set i: nat | i < k && bases[i] != "$0"
  }

  /** PresentIcs counts exactly the base addresses among the first k that are not "$0". */
  lemma {:induction false} PresentIcsCount(bases: seq<string>, k: nat)
    requires k <= |bases|
    ensures PresentIcs(bases, k) == |PresentSet(bases, k)|
  {
    if k > 0 {
      PresentIcsCount(bases, k - 1);
      if bases[k - 1] != "$0" {
        assert PresentSet(bases, k) == PresentSet(bases, k - 1) + {k - 1};
      } else {
        assert PresentSet(bases, k) == PresentSet(bases, k - 1);
      }
    }
  }
}
