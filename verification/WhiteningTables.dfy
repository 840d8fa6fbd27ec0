/** The two whitening tables of BR/EDR, checked entry by entry against the shift register of Bluetooth Core,
    Vol 2 Part B, section 7.2. */
module WhiteningTables {
  import opened Bits

  // ---- the program's tables, and the register contents they stand for ----

  // Where in the key each clock value starts, sixteen a row.

  function IndexRow0(): (r: seq<nat>)
    ensures |r| == 16
  {
    [99, 85, 17, 50, 102, 58, 108, 45, 92, 62, 32, 118, 88, 11, 80, 2]
  }

  function IndexRow1(): (r: seq<nat>)
    ensures |r| == 16
  {
    [37, 69, 55, 8, 20, 40, 74, 114, 15, 106, 30, 78, 53, 72, 28, 26]
  }

  function IndexRow2(): (r: seq<nat>)
    ensures |r| == 16
  {
    [68, 7, 39, 113, 105, 77, 71, 25, 84, 49, 57, 44, 61, 117, 10, 1]
  }

  function IndexRow3(): (r: seq<nat>)
    ensures |r| == 16
  {
    [123, 124, 22, 125, 111, 23, 42, 126, 6, 112, 76, 24, 48, 43, 116, 0]
  }

  // One period of the key, twenty-eight bits a row.

  function DataRow0(): (r: seq<nat>)
    ensures |r| == 28
  {
    [1, 1, 1, 0, 0, 0, 1, 1, 1, 0, 1, 1, 0, 0, 0, 1, 0, 1, 0, 0, 1, 0, 1, 1, 1, 1, 1, 0]
  }

  function DataRow1(): (r: seq<nat>)
    ensures |r| == 28
  {
    [1, 0, 1, 0, 1, 0, 0, 0, 0, 1, 0, 1, 1, 0, 1, 1, 1, 1, 0, 0, 1, 1, 1, 0, 0, 1, 0, 1]
  }

  function DataRow2(): (r: seq<nat>)
    ensures |r| == 28
  {
    [0, 1, 1, 0, 0, 1, 1, 0, 0, 0, 0, 0, 1, 1, 0, 1, 1, 0, 1, 0, 1, 1, 1, 0, 1, 0, 0, 0]
  }

  function DataRow3(): (r: seq<nat>)
    ensures |r| == 28
  {
    [1, 1, 0, 0, 1, 0, 0, 0, 1, 0, 0, 0, 0, 0, 0, 1, 0, 0, 1, 0, 0, 1, 1, 0, 1, 0, 0, 1]
  }

  function DataRow4(): (r: seq<nat>)
    ensures |r| == 15
  {
    [1, 1, 1, 0, 1, 1, 1, 0, 0, 0, 0, 1, 1, 1, 1]
  }

  // The register, as a number, before each bit of the key; a row ends with the first entry of the next.

  function StateRow0(): (r: seq<nat>)
    ensures |r| == 29
  {
    [127, 111, 79, 15, 30, 60, 120, 97, 83, 55, 110, 77, 11, 22, 44, 88, 33, 66, 21, 42, 84, 57, 114, 117, 123,
     103, 95, 47, 94]
  }

  function StateRow1(): (r: seq<nat>)
    ensures |r| == 29
  {
    [94, 45, 90, 37, 74, 5, 10, 20, 40, 80, 49, 98, 85, 59, 118, 125, 107, 71, 31, 62, 124, 105, 67, 23, 46,
     92, 41, 82, 53]
  }

  function StateRow2(): (r: seq<nat>)
    ensures |r| == 29
  {
    [53, 106, 69, 27, 54, 108, 73, 3, 6, 12, 24, 48, 96, 81, 51, 102, 93, 43, 86, 61, 122, 101, 91, 39, 78, 13,
     26, 52, 104]
  }

  function StateRow3(): (r: seq<nat>)
    ensures |r| == 29
  {
    [104, 65, 19, 38, 76, 9, 18, 36, 72, 1, 2, 4, 8, 16, 32, 64, 17, 34, 68, 25, 50, 100, 89, 35, 70, 29, 58,
     116, 121]
  }

  function StateRow4(): (r: seq<nat>)
    ensures |r| == 16
  {
    [121, 99, 87, 63, 126, 109, 75, 7, 14, 28, 56, 112, 113, 115, 119, 127]
  }

  function Index(clk6: nat): nat
    requires clk6 < 64
  {
    if clk6 < 16 then IndexRow0()[clk6] else if clk6 < 32 then IndexRow1()[clk6 - 16]
    else if clk6 < 48 then IndexRow2()[clk6 - 32] else IndexRow3()[clk6 - 48]
  }

  function Data(i: nat): nat
    requires i < 127
  {
    if i < 28 then DataRow0()[i] else if i < 56 then DataRow1()[i - 28] else if i < 84 then DataRow2()[i - 56]
    else if i < 112 then DataRow3()[i - 84] else DataRow4()[i - 112]
  }

  ghost function State(i: nat): nat
    requires i < 127
  {
    if i < 28 then StateRow0()[i] else if i < 56 then StateRow1()[i - 28] else if i < 84 then StateRow2()[i - 56]
    else if i < 112 then StateRow3()[i - 84] else StateRow4()[i - 112]
  }

  // ---- the register of the standard ----

  /** Positions 0 to 5 take the clock bits, position 6 a one. */
  function Load(clk6: nat): (r: Word)
    requires clk6 < 64
    ensures |r| == 7
  {
    FromNat(clk6, 6) + [true]
  }

  /** D^7 + D^4 + 1: position 6 leaves and returns into positions 0 and 4. */
  function Clock(r: Word): (s: Word)
    requires |r| == 7
    ensures |s| == 7
  {
    [r[6], r[0], r[1], r[2], r[3] != r[6], r[4], r[5]]
  }

  function After(r: Word, n: nat): (s: Word)
    requires |r| == 7
    ensures |s| == 7
  {
    if n == 0 then r else Clock(After(r, n - 1))
  }

  /** One clock on the register as a number. */
  function Step(s: nat): nat {
    if s < 64 then 2 * s
    else if 72 <= s < 80 || 88 <= s < 96 || 104 <= s < 112 || 120 <= s then 2 * s - 143
    else 2 * s - 111
  }

  function Number(r: Word): nat
    requires |r| == 7
  {
    BitVal(r[0]) + 2 * BitVal(r[1]) + 4 * BitVal(r[2]) + 8 * BitVal(r[3]) + 16 * BitVal(r[4]) + 32 * BitVal(r[5])
    + 64 * BitVal(r[6])
  }

  lemma StepIsClock(r: Word)
    requires |r| == 7
    ensures Step(Number(r)) == Number(Clock(r)) && r[6] == (Number(r) >= 64)
  {
  }

  lemma LoadNumber(clk6: nat)
    requires clk6 < 64
    ensures Number(Load(clk6)) == 64 + clk6
  {
    var w := FromNat(clk6, 6);
    assert Pow2(6) == 64;
    ToNatFromNat(clk6, 6);
    assert ToNat(w[6..]) == 0;
    assert w[5..][1..] == w[6..] && w[4..][1..] == w[5..] && w[3..][1..] == w[4..] && w[2..][1..] == w[3..];
    assert w[1..][1..] == w[2..];
    assert ToNat(w[5..]) == BitVal(w[5]);
    assert ToNat(w[4..]) == BitVal(w[4]) + 2 * BitVal(w[5]);
    assert ToNat(w[3..]) == BitVal(w[3]) + 2 * BitVal(w[4]) + 4 * BitVal(w[5]);
    assert ToNat(w[2..]) == BitVal(w[2]) + 2 * BitVal(w[3]) + 4 * BitVal(w[4]) + 8 * BitVal(w[5]);
  }

  // ---- the tables follow the register ----

  lemma Walk0()
    ensures forall j :: 0 <= j < 28 ==> StateRow0()[j + 1] == Step(StateRow0()[j])
  {
  }

  lemma Read0()
    ensures forall j :: 0 <= j < 28 ==> (DataRow0()[j] == 1) == (StateRow0()[j] >= 64)
  {
  }

  lemma Walk1()
    ensures forall j :: 0 <= j < 28 ==> StateRow1()[j + 1] == Step(StateRow1()[j])
  {
  }

  lemma Read1()
    ensures forall j :: 0 <= j < 28 ==> (DataRow1()[j] == 1) == (StateRow1()[j] >= 64)
  {
  }

  lemma Walk2()
    ensures forall j :: 0 <= j < 28 ==> StateRow2()[j + 1] == Step(StateRow2()[j])
  {
  }

  lemma Read2()
    ensures forall j :: 0 <= j < 28 ==> (DataRow2()[j] == 1) == (StateRow2()[j] >= 64)
  {
  }

  lemma Walk3()
    ensures forall j :: 0 <= j < 28 ==> StateRow3()[j + 1] == Step(StateRow3()[j])
  {
  }

  lemma Read3()
    ensures forall j :: 0 <= j < 28 ==> (DataRow3()[j] == 1) == (StateRow3()[j] >= 64)
  {
  }

  lemma Walk4()
    ensures forall j :: 0 <= j < 15 ==> StateRow4()[j + 1] == Step(StateRow4()[j])
  {
  }

  lemma Read4()
    ensures forall j :: 0 <= j < 15 ==> (DataRow4()[j] == 1) == (StateRow4()[j] >= 64)
  {
  }

  lemma RowsJoin()
    ensures StateRow0()[28] == StateRow1()[0] && StateRow1()[28] == StateRow2()[0] && StateRow2()[28] == StateRow3()[0]
    ensures StateRow3()[28] == StateRow4()[0] && StateRow4()[15] == StateRow0()[0]
  {
  }

  /** Walking one place along the data table is one clock, and its entry is the bit that leaves. */
  lemma TableStep(i: nat)
    requires i < 127
    ensures State(if i < 126 then i + 1 else 0) == Step(State(i))
    ensures (Data(i) == 1) == (State(i) >= 64)
  {
    hide DataRow0, DataRow1, DataRow2, DataRow3, DataRow4, StateRow0, StateRow1, StateRow2, StateRow3, StateRow4, Step;
    RowsJoin();
    if i < 28 {
      Walk0();
      Read0();
    } else if i < 56 {
      Walk1();
      Read1();
    } else if i < 84 {
      Walk2();
      Read2();
    } else if i < 112 {
      Walk3();
      Read3();
    } else {
      Walk4();
      Read4();
    }
  }

  // Entries of an index row that point into a state row point at the register loaded for their clock.

  lemma Placed00()
    ensures forall k :: 0 <= k < 16 && 0 <= IndexRow0()[k] < 28 ==> StateRow0()[IndexRow0()[k]] == 64 + k
  {
  }

  lemma Placed01()
    ensures forall k :: 0 <= k < 16 && 28 <= IndexRow0()[k] < 56 ==> StateRow1()[IndexRow0()[k] - 28] == 64 + k
  {
  }

  lemma Placed02()
    ensures forall k :: 0 <= k < 16 && 56 <= IndexRow0()[k] < 84 ==> StateRow2()[IndexRow0()[k] - 56] == 64 + k
  {
  }

  lemma Placed03()
    ensures forall k :: 0 <= k < 16 && 84 <= IndexRow0()[k] < 112 ==> StateRow3()[IndexRow0()[k] - 84] == 64 + k
  {
  }

  lemma Placed04()
    ensures forall k :: 0 <= k < 16 && 112 <= IndexRow0()[k] < 127 ==> StateRow4()[IndexRow0()[k] - 112] == 64 + k
  {
  }

  lemma Indices0()
    ensures forall k :: 0 <= k < 16 ==> IndexRow0()[k] < 127
  {
  }

  lemma SeedRow0(k: nat)
    requires k < 16
    ensures IndexRow0()[k] < 127 && State(IndexRow0()[k]) == 64 + k
  {
    hide StateRow0, StateRow1, StateRow2, StateRow3, StateRow4, IndexRow0;
    Indices0();
    Placed00();
    Placed01();
    Placed02();
    Placed03();
    Placed04();
  }

  lemma Placed10()
    ensures forall k :: 0 <= k < 16 && 0 <= IndexRow1()[k] < 28 ==> StateRow0()[IndexRow1()[k]] == 80 + k
  {
  }

  lemma Placed11()
    ensures forall k :: 0 <= k < 16 && 28 <= IndexRow1()[k] < 56 ==> StateRow1()[IndexRow1()[k] - 28] == 80 + k
  {
  }

  lemma Placed12()
    ensures forall k :: 0 <= k < 16 && 56 <= IndexRow1()[k] < 84 ==> StateRow2()[IndexRow1()[k] - 56] == 80 + k
  {
  }

  lemma Placed13()
    ensures forall k :: 0 <= k < 16 && 84 <= IndexRow1()[k] < 112 ==> StateRow3()[IndexRow1()[k] - 84] == 80 + k
  {
  }

  lemma Placed14()
    ensures forall k :: 0 <= k < 16 && 112 <= IndexRow1()[k] < 127 ==> StateRow4()[IndexRow1()[k] - 112] == 80 + k
  {
  }

  lemma Indices1()
    ensures forall k :: 0 <= k < 16 ==> IndexRow1()[k] < 127
  {
  }

  lemma SeedRow1(k: nat)
    requires k < 16
    ensures IndexRow1()[k] < 127 && State(IndexRow1()[k]) == 80 + k
  {
    hide StateRow0, StateRow1, StateRow2, StateRow3, StateRow4, IndexRow1;
    Indices1();
    Placed10();
    Placed11();
    Placed12();
    Placed13();
    Placed14();
  }

  lemma Placed20()
    ensures forall k :: 0 <= k < 16 && 0 <= IndexRow2()[k] < 28 ==> StateRow0()[IndexRow2()[k]] == 96 + k
  {
  }

  lemma Placed21()
    ensures forall k :: 0 <= k < 16 && 28 <= IndexRow2()[k] < 56 ==> StateRow1()[IndexRow2()[k] - 28] == 96 + k
  {
  }

  lemma Placed22()
    ensures forall k :: 0 <= k < 16 && 56 <= IndexRow2()[k] < 84 ==> StateRow2()[IndexRow2()[k] - 56] == 96 + k
  {
  }

  lemma Placed23()
    ensures forall k :: 0 <= k < 16 && 84 <= IndexRow2()[k] < 112 ==> StateRow3()[IndexRow2()[k] - 84] == 96 + k
  {
  }

  lemma Placed24()
    ensures forall k :: 0 <= k < 16 && 112 <= IndexRow2()[k] < 127 ==> StateRow4()[IndexRow2()[k] - 112] == 96 + k
  {
  }

  lemma Indices2()
    ensures forall k :: 0 <= k < 16 ==> IndexRow2()[k] < 127
  {
  }

  lemma SeedRow2(k: nat)
    requires k < 16
    ensures IndexRow2()[k] < 127 && State(IndexRow2()[k]) == 96 + k
  {
    hide StateRow0, StateRow1, StateRow2, StateRow3, StateRow4, IndexRow2;
    Indices2();
    Placed20();
    Placed21();
    Placed22();
    Placed23();
    Placed24();
  }

  lemma Placed30()
    ensures forall k :: 0 <= k < 16 && 0 <= IndexRow3()[k] < 28 ==> StateRow0()[IndexRow3()[k]] == 112 + k
  {
  }

  lemma Placed31()
    ensures forall k :: 0 <= k < 16 && 28 <= IndexRow3()[k] < 56 ==> StateRow1()[IndexRow3()[k] - 28] == 112 + k
  {
  }

  lemma Placed32()
    ensures forall k :: 0 <= k < 16 && 56 <= IndexRow3()[k] < 84 ==> StateRow2()[IndexRow3()[k] - 56] == 112 + k
  {
  }

  lemma Placed33()
    ensures forall k :: 0 <= k < 16 && 84 <= IndexRow3()[k] < 112 ==> StateRow3()[IndexRow3()[k] - 84] == 112 + k
  {
  }

  lemma Placed34()
    ensures forall k :: 0 <= k < 16 && 112 <= IndexRow3()[k] < 127 ==> StateRow4()[IndexRow3()[k] - 112] == 112 + k
  {
  }

  lemma Indices3()
    ensures forall k :: 0 <= k < 16 ==> IndexRow3()[k] < 127
  {
  }

  lemma SeedRow3(k: nat)
    requires k < 16
    ensures IndexRow3()[k] < 127 && State(IndexRow3()[k]) == 112 + k
  {
    hide StateRow0, StateRow1, StateRow2, StateRow3, StateRow4, IndexRow3;
    Indices3();
    Placed30();
    Placed31();
    Placed32();
    Placed33();
    Placed34();
  }

  /** Every clock value starts the key where the register holds its load. */
  lemma Seeds(clk6: nat)
    requires clk6 < 64
    ensures Index(clk6) < 127 && State(Index(clk6)) == 64 + clk6
  {
    hide State, IndexRow0, IndexRow1, IndexRow2, IndexRow3;
    if clk6 < 16 {
      SeedRow0(clk6);
    } else if clk6 < 32 {
      SeedRow1(clk6 - 16);
    } else if clk6 < 48 {
      SeedRow2(clk6 - 32);
    } else {
      SeedRow3(clk6 - 48);
    }
  }
}
