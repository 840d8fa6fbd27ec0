/** The access-code sync word of BR/EDR (Bluetooth Core, Vol 2 Part B, section 6.3.3): generated from a LAP by
    24 rows of a table, and recognised in a 64-bit window. */
module BredrSync {
  import opened Bits
  import opened Distances

  function Row(i: nat): bv64
    requires i < 24
  {
    match i
    case 0 => 0xfe000002a0d1c014 case 1 => 0x01000003f0b9201f case 2 => 0x008000033ae40edb
    case 3 => 0x004000035fca99b9 case 4 => 0x002000036d5dd208 case 5 => 0x00100001b6aee904
    case 6 => 0x00080000db577482 case 7 => 0x000400006dabba41 case 8 => 0x00020002f46d43f4
    case 9 => 0x000100017a36a1fa case 10 => 0x00008000bd1b50fd case 11 => 0x000040029c3536aa
    case 12 => 0x000020014e1a9b55 case 13 => 0x0000100265b5d37e case 14 => 0x0000080132dae9bf
    case 15 => 0x000004025bd5ea0b case 16 => 0x00000203ef526bd1 case 17 => 0x000001033511ab3c
    case 18 => 0x000000819a88d59e case 19 => 0x00000040cd446acf case 20 => 0x00000022a41aabb3
    case 21 => 0x0000001390b5cb0d case 22 => 0x0000000b0ae27b52 case _ => 0x0000000585713da9
  }

  const DEFAULT_CODEWORD: bv64 := 0xb0000002c7820e7e

  function Low(v: bv64): bool {
    v & 1 == 1
  }

  function Half(v: bv64): bv64 {
    v >> 1
  }

  function Plus(a: bv64, b: bv64): bv64 {
    a ^ b
  }

  function Bit(v: bv64, k: nat): bool {
    if k == 0 then Low(v) else Bit(Half(v), k - 1)
  }

  function BitsOf(v: bv64): (w: Word)
    ensures |w| == 64 && forall k :: 0 <= k < 64 ==> w[k] == Bit(v, k)
  {
    seq(64, k requires 0 <= k < 64 => Bit(v, k))
  }

  function RowWord(i: nat): (w: Word)
    requires i < 24
    ensures |w| == 64
  {
    BitsOf(Row(i))
  }

  function DefaultWord(): (w: Word)
    ensures |w| == 64
  {
    BitsOf(DEFAULT_CODEWORD)
  }

  /** The codeword after the first n rows: row i is added for LAP bit 23 - i. */
  function Codeword(lap: Word, n: nat): (w: Word)
    requires |lap| == 24 && n <= 24
    ensures |w| == 64
  {
    if n == 0 then DefaultWord()
    else if lap[24 - n] then Xor(Codeword(lap, n - 1), RowWord(n - 1))
    else Codeword(lap, n - 1)
  }

  function SyncWord(lap: Word): (w: Word)
    requires |lap| == 24
    ensures |w| == 64
  {
    Codeword(lap, 24)
  }

  method GenSyncWord(lap: Word) returns (codeword: Word)
    requires |lap| == 24
    ensures codeword == SyncWord(lap)
  {
    hide RowWord, DefaultWord;
    codeword := DefaultWord();
    var i := 0;
    while i < 24
      invariant i <= 24 && codeword == Codeword(lap, i)
    {
      if lap[23 - i] {
        codeword := Xor(codeword, RowWord(i));
      }
      i := i + 1;
    }
  }

  // ---- the systematic part ----

  lemma PlusParts(a: bv64, b: bv64)
    ensures Low(Plus(a, b)) == (Low(a) != Low(b)) && Half(Plus(a, b)) == Plus(Half(a), Half(b))
  {
  }

  lemma {:induction false} BitPlus(a: bv64, b: bv64, k: nat)
    ensures Bit(Plus(a, b), k) == (Bit(a, k) != Bit(b, k))
    decreases k
  {
    hide Low, Half, Plus;
    PlusParts(a, b);
    if k > 0 {
      BitPlus(Half(a), Half(b), k - 1);
    }
  }

  function Shift2(v: bv64): bv64 {
    v >> 2
  }

  function Shift8(v: bv64): bv64 {
    v >> 8
  }

  /** What is above the 34 parity bits. */
  function High(v: bv64): bv64 {
    v >> 34
  }

  lemma ShiftParts(v: bv64)
    ensures Shift2(v) == Half(Half(v))
  {
  }

  lemma EightParts(v: bv64)
    ensures Shift8(v) == Shift2(Shift2(Shift2(Shift2(v))))
  {
  }

  lemma HighParts(v: bv64)
    ensures High(v) == Shift2(Shift8(Shift8(Shift8(Shift8(v)))))
  {
  }

  lemma BitShift2(v: bv64, k: nat)
    ensures Bit(v, k + 2) == Bit(Shift2(v), k)
  {
    hide Half, Low, Shift2;
    ShiftParts(v);
    assert Bit(v, k + 2) == Bit(Half(v), k + 1);
  }

  lemma BitShift8(v: bv64, k: nat)
    ensures Bit(v, k + 8) == Bit(Shift8(v), k)
  {
    hide Bit, Shift2, Shift8;
    EightParts(v);
    BitShift2(v, k + 6);
    BitShift2(Shift2(v), k + 4);
    BitShift2(Shift2(Shift2(v)), k + 2);
    BitShift2(Shift2(Shift2(Shift2(v))), k);
  }

  lemma BitHigh(v: bv64, k: nat)
    ensures Bit(v, 34 + k) == Bit(High(v), k)
  {
    hide Bit, Shift2, Shift8, High;
    HighParts(v);
    BitShift8(v, k + 26);
    BitShift8(Shift8(v), k + 18);
    BitShift8(Shift8(Shift8(v)), k + 10);
    BitShift8(Shift8(Shift8(Shift8(v))), k + 2);
    BitShift2(Shift8(Shift8(Shift8(Shift8(v)))), k);
  }

  /** 2 to the k. */
  function Power(k: nat): bv64
    requires k < 30
  {
    match k
    case 0 => 1 case 1 => 2 case 2 => 4 case 3 => 8 case 4 => 0x10 case 5 => 0x20 case 6 => 0x40 case 7 => 0x80
    case 8 => 0x100 case 9 => 0x200 case 10 => 0x400 case 11 => 0x800 case 12 => 0x1000 case 13 => 0x2000
    case 14 => 0x4000 case 15 => 0x8000 case 16 => 0x10000 case 17 => 0x20000 case 18 => 0x40000 case 19 => 0x80000
    case 20 => 0x100000 case 21 => 0x200000 case 22 => 0x400000 case 23 => 0x800000 case 24 => 0x1000000
    case 25 => 0x2000000 case 26 => 0x4000000 case 27 => 0x8000000 case 28 => 0x10000000 case _ => 0x20000000
  }

  lemma PowerHalved(k: nat)
    requires 0 < k < 30
    ensures Half(Power(k)) == Power(k - 1) && !Low(Power(k))
  {
  }

  lemma {:induction false} BitOfZero(j: nat)
    ensures !Bit(0, j)
  {
    if j > 0 {
      BitOfZero(j - 1);
    }
  }

  lemma {:induction false} PowerBit(k: nat, j: nat)
    requires k < 30
    ensures Bit(Power(k), j) == (j == k)
  {
    hide Power, Low, Half;
    if k == 0 {
      PowerOfZero();
      if j > 0 {
        BitOfZero(j - 1);
      }
    } else {
      PowerHalved(k);
      if j > 0 {
        PowerBit(k - 1, j - 1);
      }
    }
  }

  lemma PowerOfZero()
    ensures Low(Power(0)) && Half(Power(0)) == 0
  {
  }

  lemma HighOfRow(i: nat)
    requires 0 < i < 24
    ensures High(Row(i)) == Power(23 - i)
  {
  }

  /** Bits 23 to 26, and 27 to 29. */
  function LowerFour(): bv64 {
    Plus(Plus(Power(23), Power(24)), Plus(Power(25), Power(26)))
  }

  function UpperThree(): bv64 {
    Plus(Plus(Power(27), Power(28)), Power(29))
  }

  lemma HighOfFirst()
    ensures High(Row(0)) == Plus(LowerFour(), UpperThree())
  {
    FourAndThree();
    hide LowerFour, UpperThree;
  }

  lemma FourAndThree()
    ensures LowerFour() == 0x7800000 && UpperThree() == 0x38000000
  {
    FirstPowers();
    LastPowers();
    hide Power;
  }

  lemma FirstPowers()
    ensures Power(23) == 0x800000 && Power(24) == 0x1000000 && Power(25) == 0x2000000 && Power(26) == 0x4000000
  {
  }

  lemma LastPowers()
    ensures Power(27) == 0x8000000 && Power(28) == 0x10000000 && Power(29) == 0x20000000
  {
  }

  lemma HighOfDefault()
    ensures High(DEFAULT_CODEWORD) == Plus(Plus(Power(26), Power(27)), Power(29))
  {
  }

  lemma LowerFourBit(j: nat)
    ensures Bit(LowerFour(), j) == (23 <= j < 27)
  {
    hide Power, Plus, Bit;
    BitPlus(Plus(Power(23), Power(24)), Plus(Power(25), Power(26)), j);
    BitPlus(Power(23), Power(24), j);
    BitPlus(Power(25), Power(26), j);
    PowerBit(23, j);
    PowerBit(24, j);
    PowerBit(25, j);
    PowerBit(26, j);
  }

  lemma UpperThreeBit(j: nat)
    ensures Bit(UpperThree(), j) == (27 <= j < 30)
  {
    hide Power, Plus, Bit;
    BitPlus(Plus(Power(27), Power(28)), Power(29), j);
    BitPlus(Power(27), Power(28), j);
    PowerBit(27, j);
    PowerBit(28, j);
    PowerBit(29, j);
  }

  lemma PatternB()
    ensures FromNat(0x58, 7) == [false, false, false, true, true, false, true]
  {
  }

  lemma PatternA()
    ensures FromNat(0x27, 7) == [true, true, true, false, false, true, false]
  {
  }

  /** The two barker patterns are complements. */
  lemma PatternsComplement(j: nat)
    requires j < 7
    ensures FromNat(0x27, 7)[j] == !FromNat(0x58, 7)[j]
  {
    hide FromNat;
    PatternA();
    PatternB();
  }

  /** Bit j of the part above the parity bits: a row holds its LAP bit there, the first row also fills the
      six bits above it. */
  lemma RowHighBit(i: nat, j: nat)
    requires i < 24 && j < 30
    ensures RowWord(i)[34 + j] == if i == 0 then j >= 23 else j == 23 - i
  {
    hide Bit, Power, Row, High, Plus, LowerFour, UpperThree;
    BitHigh(Row(i), j);
    if i == 0 {
      HighOfFirst();
      BitPlus(LowerFour(), UpperThree(), j);
      LowerFourBit(j);
      UpperThreeBit(j);
    } else {
      HighOfRow(i);
      PowerBit(23 - i, j);
    }
  }

  lemma DefaultHighBit(j: nat)
    requires j < 30
    ensures DefaultWord()[34 + j] == (j >= 23 && FromNat(0x58, 7)[j - 23])
  {
    hide Bit, Power, High, Plus, FromNat;
    BitHigh(DEFAULT_CODEWORD, j);
    HighOfDefault();
    BitPlus(Power(26), Power(27), j);
    BitPlus(Plus(Power(26), Power(27)), Power(29), j);
    PowerBit(26, j);
    PowerBit(27, j);
    PowerBit(29, j);
    PatternB();
  }

  /** After n rows the top n LAP bits are in place, and the barker field is the default's, complemented when
      LAP bit 23 is set. */
  lemma {:induction false} CodewordHigh(lap: Word, n: nat, j: nat)
    requires |lap| == 24 && n <= 24 && j < 30
    ensures Codeword(lap, n)[34 + j] ==
            if j < 23 then j >= 24 - n && lap[j] else FromNat(0x58, 7)[j - 23] != (n > 0 && lap[23])
  {
    hide RowWord, DefaultWord;
    if n == 0 {
      DefaultHighBit(j);
    } else {
      CodewordHigh(lap, n - 1, j);
      RowHighBit(n - 1, j);
    }
  }

  /** Bits 57 to 63. */
  function BarkerField(w: Word): (b: Word)
    requires |w| == 64
    ensures |b| == 7
  {
    w[57..]
  }

  const BARKER_A: nat := 0x27
  const BARKER_B: nat := 0x58

  lemma FieldBit(w: Word, j: nat)
    requires |w| == 64 && j < 7
    ensures w[57..][j] == w[57 + j] == w[34 + (23 + j)]
  {
  }

  /** A sync word carries its LAP in bits 34 to 57, and one of the two barker patterns above them. */
  lemma SyncCarriesLap(lap: Word)
    requires |lap| == 24
    ensures SyncWord(lap)[34..58] == lap
    ensures BarkerField(SyncWord(lap)) == FromNat(if lap[23] then BARKER_A else BARKER_B, 7)
  {
    hide Codeword, FromNat;
    var w := Codeword(lap, 24);
    forall j | 0 <= j < 24 ensures w[34..58][j] == lap[j] {
      CodewordHigh(lap, 24, j);
      PatternB();
    }
    var pattern := FromNat(if lap[23] then 0x27 else 0x58, 7);
    forall j | 0 <= j < 7 ensures w[57..][j] == pattern[j] {
      CodewordHigh(lap, 24, 23 + j);
      PatternsComplement(j);
      FieldBit(w, j);
    }
  }

  /** Sync words form an affine code: the default word is their origin. */
  lemma {:induction false} SyncAffine(a: Word, b: Word, n: nat)
    requires |a| == |b| == 24 && n <= 24
    ensures Codeword(Xor(a, b), n) == Xor(Xor(Codeword(a, n), Codeword(b, n)), DefaultWord())
  {
    hide RowWord, DefaultWord;
    if n > 0 {
      SyncAffine(a, b, n - 1);
    }
  }

  // ---- recognition ----

  /** The barker field is within one bit of a pattern. */
  predicate BarkerOk(window: Word)
    requires |window| == 64
  {
    var b := BarkerField(window);
    Distance(b, FromNat(BARKER_A, 7)) <= 1 || Distance(b, FromNat(BARKER_B, 7)) <= 1
  }

  function LapOf(window: Word): (lap: Word)
    requires |window| == 64
    ensures |lap| == 24
  {
    window[34..58]
  }

  function Errors(window: Word): nat
    requires |window| == 64
  {
    Distance(window, SyncWord(LapOf(window)))
  }

  predicate Matches(window: Word, maxErrors: nat)
    requires |window| == 64
  {
    BarkerOk(window) && Errors(window) <= maxErrors
  }

  /** A window is accepted with a LAP exactly when its LAP bits are that LAP's, the whole is within the
      tolerance of that LAP's sync word, and the barker field is within one bit of a pattern; as long as
      fewer than six errors are tolerated, of the LAP's own pattern.  Without tolerance it is the sync word. */
  lemma MatchesExactly(window: Word, lap: Word, maxErrors: nat)
    requires |window| == 64 && |lap| == 24
    ensures maxErrors < 6 ==>
              (Matches(window, maxErrors) && LapOf(window) == lap <==>
                Distance(window, SyncWord(lap)) <= maxErrors && LapOf(window) == LapOf(SyncWord(lap))
                && Distance(BarkerField(window), BarkerField(SyncWord(lap))) <= 1)
    ensures Matches(window, maxErrors) && LapOf(window) == lap <==>
              Distance(window, SyncWord(lap)) <= maxErrors && LapOf(window) == LapOf(SyncWord(lap)) && BarkerOk(window)
    ensures maxErrors == 0 ==> (Matches(window, 0) && LapOf(window) == lap <==> window == SyncWord(lap))
  {
    hide SyncWord, Distance, FromNat;
    SyncCarriesLap(lap);
    if window == SyncWord(lap) {
      SameDistance(BarkerField(window));
    }
    var a, b := FromNat(BARKER_A, 7), FromNat(BARKER_B, 7);
    forall j | 0 <= j < 7 ensures a[j] != b[j] {
      PatternsComplement(j);
    }
    DistanceComplement(BarkerField(window), a, b);
    DistanceOfEnd(window, SyncWord(lap), 57);
  }

  lemma SameDistance(w: Word)
    ensures Distance(w, w) == 0
  {
  }

  /** A sync word is recognised whatever the tolerance, without errors. */
  lemma Recognised(lap: Word, maxErrors: nat)
    requires |lap| == 24
    ensures Matches(SyncWord(lap), maxErrors) && LapOf(SyncWord(lap)) == lap && Errors(SyncWord(lap)) == 0
  {
    hide SyncWord, Distance, FromNat;
    SyncCarriesLap(lap);
    SameDistance(SyncWord(lap));
    SameDistance(BarkerField(SyncWord(lap)));
  }

  // ---- the code of section 6.3.3 ----

  /** The generator of the (64,30) code, 260534236651 in octal; bit i is the coefficient of the i-th power. */
  const GENERATOR: bv64 := 0x585713da9

  /** The pseudo-random overlay. */
  const OVERLAY: bv64 := 0x83848d96bbcc54fc

  function Twice(v: bv64): bv64 {
    v << 1
  }

  function Chosen(d: bool): bv64 {
    if d then GENERATOR else 0
  }

  /** The generator times the polynomial q; of degree below 64 when q has at most 30 coefficients. */
  function Times(q: Word): bv64 {
    if |q| == 0 then 0 else Plus(Twice(Times(q[1..])), Chosen(q[0]))
  }

  /** A multiple of the generator within 64 bits. */
  ghost predicate InCode(v: bv64) {
    exists q: Word :: |q| == 30 && Times(q) == v
  }

  lemma PlusAssociates(a: bv64, b: bv64, c: bv64)
    ensures Plus(Plus(a, b), c) == Plus(a, Plus(b, c))
  {
    assert (a ^ b) ^ c == a ^ (b ^ c);
  }

  lemma PlusCommutes(a: bv64, b: bv64)
    ensures Plus(a, b) == Plus(b, a)
  {
  }

  lemma PlusExchange(a: bv64, b: bv64, c: bv64, d: bv64)
    ensures Plus(Plus(a, b), Plus(c, d)) == Plus(Plus(a, c), Plus(b, d))
  {
    hide Plus;
    PlusAssociates(a, b, Plus(c, d));
    PlusAssociates(b, c, d);
    PlusCommutes(b, c);
    PlusAssociates(c, b, d);
    PlusAssociates(a, c, Plus(b, d));
  }

  lemma TwicePlus(a: bv64, b: bv64)
    ensures Twice(Plus(a, b)) == Plus(Twice(a), Twice(b))
  {
  }

  lemma ChosenXor(d: bool, e: bool)
    ensures Chosen(d != e) == Plus(Chosen(d), Chosen(e))
  {
  }

  lemma Nothing(v: bv64)
    ensures Twice(0) == 0 && Plus(0, v) == v && Plus(v, 0) == v && Chosen(false) == 0
  {
  }

  lemma {:induction false} TimesXor(p: Word, q: Word)
    requires |p| == |q|
    ensures Times(Xor(p, q)) == Plus(Times(p), Times(q))
  {
    hide Plus, Twice, Chosen;
    if |p| == 0 {
      Nothing(0);
    } else {
      TimesXor(p[1..], q[1..]);
      assert Xor(p, q)[1..] == Xor(p[1..], q[1..]);
      var a, b := Times(p[1..]), Times(q[1..]);
      TwicePlus(a, b);
      ChosenXor(p[0], q[0]);
      PlusExchange(Twice(a), Twice(b), Chosen(p[0]), Chosen(q[0]));
    }
  }

  lemma {:induction false} TimesPadded(q: Word, n: nat)
    ensures Times(q + Zeros(n)) == Times(q)
  {
    hide Plus, Twice, Chosen;
    if |q| == 0 {
      assert q + Zeros(n) == Zeros(n);
      TimesZeros(n);
    } else {
      assert (q + Zeros(n))[1..] == q[1..] + Zeros(n);
      TimesPadded(q[1..], n);
    }
  }

  lemma {:induction false} TimesZeros(n: nat)
    ensures Times(Zeros(n)) == 0
  {
    hide Plus, Twice, Chosen;
    Nothing(0);
    if n > 0 {
      assert Zeros(n)[1..] == Zeros(n - 1);
      TimesZeros(n - 1);
    }
  }

  lemma InCodePlus(v: bv64, w: bv64)
    requires InCode(v) && InCode(w)
    ensures InCode(Plus(v, w))
  {
    hide Plus, Times;
    var p: Word :| |p| == 30 && Times(p) == v;
    var q: Word :| |q| == 30 && Times(q) == w;
    TimesXor(p, q);
    assert |Xor(p, q)| == 30;
  }

  /** One power higher, reduced so that bit 34 stays clear. */
  function Next(v: bv64): bv64 {
    Plus(Twice(v), Chosen(v & 0x200000000 != 0))
  }

  /** The codeword of information bit k: a row of the table below the LAP's top bit, then the six barker bits. */
  function Basis(k: nat): bv64
    requires k < 30
  {
    if k < 23 then Row(23 - k) else Upper(k)
  }

  function Upper(k: nat): bv64
    requires 23 <= k < 30
  {
    match k
    case 23 => 0x200000264037d97 case 24 => 0x40000014d77c687 case 25 => 0x80000029aef8d0e case 26 => 0x10000000b0ae27b5
    case 27 => 0x20000001615c4f6a case 28 => 0x40000002c2b89ed4 case _ => 0x8000000000000001
  }

  lemma RowStep(i: nat)
    requires 0 < i < 23
    ensures Row(i) == Next(Row(i + 1))
  {
  }

  lemma UpperStep(k: nat)
    requires 23 <= k < 29
    ensures Upper(k + 1) == Next(Upper(k))
  {
  }

  lemma FirstSteps()
    ensures Row(23) == GENERATOR && Upper(23) == Next(Row(1))
  {
  }

  lemma BasisStep(k: nat)
    requires k < 29
    ensures Basis(k + 1) == Next(Basis(k))
  {
    hide Row, Upper, Next;
    if k < 22 {
      RowStep(22 - k);
    } else if k == 22 {
      FirstSteps();
    } else {
      UpperStep(k);
    }
  }

  lemma {:induction false} BasisQuotient(k: nat) returns (q: Word)
    requires k < 30
    ensures |q| == k + 1 && Times(q) == Basis(k)
  {
    hide Row, Upper, Plus, Twice;
    if k == 0 {
      FirstSteps();
      Nothing(GENERATOR);
      q := [true];
      assert Times(q[1..]) == 0;
    } else {
      var p := BasisQuotient(k - 1);
      BasisStep(k - 1);
      q := [Basis(k - 1) & 0x200000000 != 0] + p;
      assert q[1..] == p;
    }
  }

  lemma BasisInCode(k: nat)
    requires k < 30
    ensures InCode(Basis(k))
  {
    hide Basis, Times;
    var q := BasisQuotient(k);
    TimesPadded(q, 29 - k);
    assert |q + Zeros(29 - k)| == 30;
  }

  lemma FirstRow()
    ensures Row(0) == Plus(Plus(Plus(Basis(23), Basis(24)), Plus(Basis(25), Basis(26))),
                           Plus(Plus(Basis(27), Basis(28)), Basis(29)))
  {
  }

  /** Every row is a codeword. */
  lemma RowInCode(i: nat)
    requires i < 24
    ensures InCode(Row(i))
  {
    hide Row, Upper, Plus, InCode;
    if i > 0 {
      BasisInCode(23 - i);
    } else {
      FirstRow();
      BasisInCode(23);
      BasisInCode(24);
      BasisInCode(25);
      BasisInCode(26);
      BasisInCode(27);
      BasisInCode(28);
      BasisInCode(29);
      hide Basis;
      InCodePlus(Basis(23), Basis(24));
      InCodePlus(Basis(25), Basis(26));
      InCodePlus(Plus(Basis(23), Basis(24)), Plus(Basis(25), Basis(26)));
      InCodePlus(Basis(27), Basis(28));
      InCodePlus(Plus(Basis(27), Basis(28)), Basis(29));
      InCodePlus(Plus(Plus(Basis(23), Basis(24)), Plus(Basis(25), Basis(26))),
                 Plus(Plus(Basis(27), Basis(28)), Basis(29)));
    }
  }

  function PartOne(): bv64 {
    0x978f4c233a
  }

  lemma PartOneIs()
    ensures Plus(Plus(Basis(0), Basis(2)), Basis(5)) == PartOne()
  {
  }

  function PartTwo(): bv64 {
    0xd005c1ea888
  }

  lemma PartTwoIs()
    ensures Plus(Plus(Basis(6), Basis(8)), Basis(9)) == PartTwo()
  {
  }

  function PartThree(): bv64 {
    0x848003ea54e467
  }

  lemma PartThreeIs()
    ensures Plus(Plus(Basis(13), Basis(16)), Basis(21)) == PartThree()
  {
  }

  function PartFour(): bv64 {
    0x1300000124147a3d
  }

  lemma PartFourIs()
    ensures Plus(Plus(Basis(22), Basis(23)), Basis(26)) == PartFour()
  {
  }

  lemma PartsTogether()
    ensures Plus(DEFAULT_CODEWORD, OVERLAY)
         == Plus(Plus(Plus(PartOne(), PartTwo()), Plus(PartThree(), PartFour())), Basis(27))
  {
  }

  lemma ThreeInCode(i: nat, j: nat, k: nat)
    requires i < 30 && j < 30 && k < 30
    ensures InCode(Plus(Plus(Basis(i), Basis(j)), Basis(k)))
  {
    hide Basis, Plus, InCode;
    BasisInCode(i);
    BasisInCode(j);
    BasisInCode(k);
    InCodePlus(Basis(i), Basis(j));
    InCodePlus(Plus(Basis(i), Basis(j)), Basis(k));
  }

  /** The default word is one once the overlay is taken off. */
  lemma DefaultInCode()
    ensures InCode(Plus(DEFAULT_CODEWORD, OVERLAY))
  {
    hide Basis, Plus, InCode, PartOne, PartTwo, PartThree, PartFour;
    PartOneIs();
    PartTwoIs();
    PartThreeIs();
    PartFourIs();
    ThreeInCode(0, 2, 5);
    ThreeInCode(6, 8, 9);
    ThreeInCode(13, 16, 21);
    ThreeInCode(22, 23, 26);
    BasisInCode(27);
    InCodePlus(PartOne(), PartTwo());
    InCodePlus(PartThree(), PartFour());
    InCodePlus(Plus(PartOne(), PartTwo()), Plus(PartThree(), PartFour()));
    InCodePlus(Plus(Plus(PartOne(), PartTwo()), Plus(PartThree(), PartFour())), Basis(27));
    PartsTogether();
  }

  /** The codeword after n rows, as a number. */
  function CodewordValue(lap: Word, n: nat): bv64
    requires |lap| == 24 && n <= 24
  {
    if n == 0 then DEFAULT_CODEWORD
    else if lap[24 - n] then Plus(CodewordValue(lap, n - 1), Row(n - 1))
    else CodewordValue(lap, n - 1)
  }

  lemma {:induction false} CodewordBits(lap: Word, n: nat)
    requires |lap| == 24 && n <= 24
    ensures Codeword(lap, n) == BitsOf(CodewordValue(lap, n))
  {
    hide Row, Plus, Bit;
    if n > 0 {
      CodewordBits(lap, n - 1);
      if lap[24 - n] {
        forall k: nat | k < 64 ensures Codeword(lap, n)[k] == Bit(CodewordValue(lap, n), k) {
          BitPlus(CodewordValue(lap, n - 1), Row(n - 1), k);
        }
      }
    }
  }

  /** Section 6.3.3: whatever the LAP, taking the overlay off a sync word leaves a multiple of the generator. */
  lemma {:induction false} SyncInCode(lap: Word, n: nat)
    requires |lap| == 24 && n <= 24
    ensures InCode(Plus(CodewordValue(lap, n), OVERLAY))
    ensures Codeword(lap, n) == BitsOf(CodewordValue(lap, n))
  {
    hide Row, Plus, InCode;
    CodewordBits(lap, n);
    if n == 0 {
      DefaultInCode();
    } else {
      SyncInCode(lap, n - 1);
      if lap[24 - n] {
        var c := CodewordValue(lap, n - 1);
        RowInCode(n - 1);
        InCodePlus(Plus(c, OVERLAY), Row(n - 1));
        PlusAssociates(c, OVERLAY, Row(n - 1));
        PlusCommutes(OVERLAY, Row(n - 1));
        PlusAssociates(c, Row(n - 1), OVERLAY);
      }
    }
  }
}
