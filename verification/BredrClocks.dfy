/** Which trial clocks a clean header check can tell apart: the check accepts a header sent at clock value c
    under trial values c and 63 - c, and under no other. */
module BredrClocks {
  import opened Bits
  import opened WhiteningTables
  import opened BredrWhitening
  import opened BredrHec
  import opened BredrRepetition
  import opened BredrHeader

  // ---- the bits that leave the whitening register ----

  function Out(r: Word, n: nat): bool
    requires |r| == 7
  {
    After(r, n)[6]
  }

  lemma Shift(r: Word, n: nat, j: nat)
    requires |r| == 7 && j < 7
    ensures After(r, n + 1)[j] == if j == 0 then After(r, n)[6]
                                  else if j == 4 then After(r, n)[3] != After(r, n)[6] else After(r, n)[j - 1]
  {
  }

  lemma {:induction false} LowPositions(r: Word, m: nat, j: nat)
    requires |r| == 7 && m <= j <= 3
    ensures After(r, m)[j] == r[j - m]
  {
    hide Clock;
    if m > 0 {
      Shift(r, m - 1, j);
      LowPositions(r, m - 1, j - 1);
    }
  }

  lemma OutThreeOn(r: Word, n: nat)
    requires |r| == 7
    ensures Out(r, n + 3) == (After(r, n)[3] != Out(r, n))
  {
    hide Clock, After;
    Shift(r, n, 4);
    Shift(r, n + 1, 5);
    Shift(r, n + 2, 6);
  }

  lemma FirstSeven(r: Word)
    requires |r| == 7
    ensures Out(r, 0) == r[6] && Out(r, 1) == r[5] && Out(r, 2) == r[4] && Out(r, 3) == (r[3] != r[6])
    ensures Out(r, 4) == (r[2] != r[5]) && Out(r, 5) == (r[1] != r[4]) && Out(r, 6) == (r[0] != (r[3] != r[6]))
  {
    assert After(r, 0) == r;
    hide Clock, After;
    Shift(r, 0, 6);
    Shift(r, 0, 5);
    Shift(r, 1, 6);
    OutThreeOn(r, 0);
    OutThreeOn(r, 1);
    OutThreeOn(r, 2);
    OutThreeOn(r, 3);
    LowPositions(r, 1, 3);
    LowPositions(r, 2, 3);
    LowPositions(r, 3, 3);
  }

  /** The key satisfies the recurrence of D^7 + D^4 + 1. */
  lemma Recurrence(r: Word, n: nat)
    requires |r| == 7
    ensures Out(r, n + 7) == (Out(r, n + 4) != Out(r, n))
  {
    hide Clock, After;
    OutThreeOn(r, n + 4);
    Shift(r, n + 3, 3);
    Shift(r, n + 2, 2);
    Shift(r, n + 1, 1);
    Shift(r, n, 0);
  }

  // ---- the check, run backwards over 18 bits ----

  /** The check register after the program has consumed header bits 9 down to k. */
  function Reg(w: Word, k: nat): (s: Word)
    requires |w| == 18 && k <= 10
    ensures |s| == 8
    decreases 10 - k
  {
    if k == 10 then w[10..] else Back(Reg(w, k + 1), w[k])
  }

  lemma {:induction false} RegIsBackRun(w: Word, k: nat)
    requires |w| == 18 && k <= 10
    ensures BackRun(Reg(w, k), w[..k]) == BackRun(w[10..], w[..10])
    decreases 10 - k
  {
    hide Back;
    if k < 10 {
      RegIsBackRun(w, k + 1);
      assert w[..k + 1][..k] == w[..k];
    }
  }

  /** The UAP the check yields for 18 dewhitened header bits. */
  function UapOf(w: Word): (u: Word)
    requires |w| == 18
    ensures |u| == 8
  {
    UapFromHec(w[..10], w[10..])
  }

  lemma UapOfIsReg(w: Word)
    requires |w| == 18
    ensures UapOf(w) == Reversed(Reg(w, 0))
  {
    hide Back;
    RegIsBackRun(w, 0);
    assert w[..0] == [];
  }

  /** The check register as eight separate bits. */
  datatype Check = Check(b0: bool, b1: bool, b2: bool, b3: bool, b4: bool, b5: bool, b6: bool, b7: bool)

  function Split(a: Word): Check
    requires |a| == 8
  {
    Check(a[0], a[1], a[2], a[3], a[4], a[5], a[6], a[7])
  }

  function BackSplit(a: Check, d: bool): Check {
    Check(a.b7 != d, a.b0 != a.b7, a.b1, a.b2 != a.b7, a.b3, a.b4, a.b5 != a.b7, a.b6 != a.b7)
  }

  function XorSplit(a: Check, b: Check): Check {
    Check(a.b0 != b.b0, a.b1 != b.b1, a.b2 != b.b2, a.b3 != b.b3,
          a.b4 != b.b4, a.b5 != b.b5, a.b6 != b.b6, a.b7 != b.b7)
  }

  lemma SplitBack(a: Word, d: bool)
    requires |a| == 8
    ensures Split(Back(a, d)) == BackSplit(Split(a), d)
  {
    hide Back;
    BackBits(a, d);
  }

  lemma SplitInjective(a: Word, b: Word)
    requires |a| == |b| == 8 && Split(a) == Split(b)
    ensures a == b
  {
    var s, t := Split(a), Split(b);
    assert s.b0 == t.b0 && s.b1 == t.b1 && s.b2 == t.b2 && s.b3 == t.b3;
    assert s.b4 == t.b4 && s.b5 == t.b5 && s.b6 == t.b6 && s.b7 == t.b7;
  }

  lemma SplitXor(a: Word, b: Word)
    requires |a| == |b| == 8
    ensures Split(Xor(a, b)) == XorSplit(Split(a), Split(b))
  {
  }

  lemma BackSplitLinear(a: Check, b: Check, d: bool, e: bool)
    ensures BackSplit(XorSplit(a, b), d != e) == XorSplit(BackSplit(a, d), BackSplit(b, e))
  {
  }

  lemma BackLinear(a: Word, b: Word, d: bool, e: bool)
    requires |a| == |b| == 8
    ensures Back(Xor(a, b), d != e) == Xor(Back(a, d), Back(b, e))
  {
    hide Back, Xor, Split, BackSplit, XorSplit;
    SplitXor(a, b);
    SplitBack(Xor(a, b), d != e);
    SplitBack(a, d);
    SplitBack(b, e);
    BackSplitLinear(Split(a), Split(b), d, e);
    SplitXor(Back(a, d), Back(b, e));
    SplitInjective(Back(Xor(a, b), d != e), Xor(Back(a, d), Back(b, e)));
  }

  lemma {:induction false} RegLinear(v: Word, w: Word, k: nat)
    requires |v| == |w| == 18 && k <= 10
    ensures Reg(Xor(v, w), k) == Xor(Reg(v, k), Reg(w, k))
    decreases 10 - k
  {
    hide Back;
    if k < 10 {
      RegLinear(v, w, k + 1);
      BackLinear(Reg(v, k + 1), Reg(w, k + 1), v[k], w[k]);
    }
  }

  /** Two headers give the same UAP exactly when their difference gives zero. */
  lemma SameUap(v: Word, w: Word)
    requires |v| == |w| == 18
    ensures UapOf(v) == UapOf(w) <==> Reg(Xor(v, w), 0) == Zeros(8)
  {
    hide UapOf, Reg;
    UapOfIsReg(v);
    UapOfIsReg(w);
    RegLinear(v, w, 0);
    XorCancels(Reg(v, 0), Reg(w, 0));
    ReversedTwice(Reg(v, 0));
    ReversedTwice(Reg(w, 0));
  }

  // ---- which key differences the check cannot see ----

  ghost predicate RecursAt(w: Word, n: nat)
    requires |w| == 18 && n < 11
  {
    w[n + 7] == (w[n + 4] != w[n])
  }

  ghost predicate Recurs(w: Word)
    requires |w| == 18
  {
    forall n :: 0 <= n < 11 ==> RecursAt(w, n)
  }

  lemma RegStep(w: Word, k: nat)
    requires |w| == 18 && k < 10
    ensures Split(Reg(w, k)) == BackSplit(Split(Reg(w, k + 1)), w[k])
  {
    hide Back;
    SplitBack(Reg(w, k + 1), w[k]);
  }

  const ZERO: Check := Check(false, false, false, false, false, false, false, false)

  /** Steps back over header bits k + 2, k + 1 and k. */
  function Three(h: Check, w: Word, k: nat): Check
    requires |w| == 18 && k <= 7
  {
    BackSplit(BackSplit(BackSplit(h, w[k + 2]), w[k + 1]), w[k])
  }

  /** Ten backward steps. */
  function Ten(w: Word): Check
    requires |w| == 18
  {
    BackSplit(Three(Three(Three(Split(w[10..]), w, 7), w, 4), w, 1), w[0])
  }

  /** On a key difference that starts with a zero, they end in zero for one pattern besides zero itself. */
  lemma KernelBits(w: Word)
    requires |w| == 18 && !w[0]
    requires w[7] == w[4] && w[8] == (w[5] != w[1]) && w[9] == (w[6] != w[2]) && w[10] == (w[7] != w[3])
    requires w[11] == (w[8] != w[4]) && w[12] == (w[9] != w[5]) && w[13] == (w[10] != w[6])
    requires w[14] == (w[11] != w[7]) && w[15] == (w[12] != w[8]) && w[16] == (w[13] != w[9])
    requires w[17] == (w[14] != w[10])
    ensures Ten(w) == ZERO <==> (w[1] == w[2] == w[3]) && !w[4] && !w[5] && !w[6]
  {
  }

  lemma RegThree(w: Word, k: nat)
    requires |w| == 18 && k <= 7
    ensures Split(Reg(w, k)) == Three(Split(Reg(w, k + 3)), w, k)
  {
    hide Reg, BackSplit, Split;
    RegStep(w, k + 2);
    RegStep(w, k + 1);
    RegStep(w, k);
  }

  lemma RegTop(w: Word)
    requires |w| == 18
    ensures Reg(w, 10) == w[10..]
  {
  }

  lemma RegIsTen(w: Word)
    requires |w| == 18
    ensures Split(Reg(w, 0)) == Ten(w)
  {
    hide Reg, BackSplit, Split, Three;
    RegTop(w);
    RegThree(w, 7);
    RegThree(w, 4);
    RegThree(w, 1);
    RegStep(w, 0);
  }

  lemma Kernel(w: Word)
    requires |w| == 18 && !w[0] && Recurs(w)
    ensures Reg(w, 0) == Zeros(8) <==> (w[1] == w[2] == w[3]) && !w[4] && !w[5] && !w[6]
  {
    hide Reg, Ten, BackSplit;
    RegIsTen(w);
    Tail(w);
    KernelBits(w);
    SplitZeros(Reg(w, 0));
  }

  lemma Tail(w: Word)
    requires |w| == 18 && Recurs(w)
    ensures w[7] == (w[4] != w[0]) && w[8] == (w[5] != w[1]) && w[9] == (w[6] != w[2]) && w[10] == (w[7] != w[3])
    ensures w[11] == (w[8] != w[4]) && w[12] == (w[9] != w[5]) && w[13] == (w[10] != w[6]) && w[14] == (w[11] != w[7])
    ensures w[15] == (w[12] != w[8]) && w[16] == (w[13] != w[9]) && w[17] == (w[14] != w[10])
  {
    assert RecursAt(w, 0) && RecursAt(w, 1) && RecursAt(w, 2) && RecursAt(w, 3) && RecursAt(w, 4) && RecursAt(w, 5);
    assert RecursAt(w, 6) && RecursAt(w, 7) && RecursAt(w, 8) && RecursAt(w, 9) && RecursAt(w, 10);
  }

  lemma SplitZeros(a: Word)
    requires |a| == 8
    ensures a == Zeros(8) <==> Split(a) == ZERO
  {
    if Split(a) == ZERO {
      assert Split(Zeros(8)) == ZERO;
      SplitInjective(a, Zeros(8));
    }
  }

  // ---- trial clocks ----

  ghost predicate Complementary(r: Word, s: Word)
    requires |r| == |s| == 7
  {
    r[6] == s[6] && forall i :: 0 <= i < 6 ==> r[i] != s[i]
  }

  lemma LastBit(x: bool, a: nat, y: bool, b: nat)
    requires BitVal(x) + 2 * a == BitVal(y) + 2 * b
    ensures x == y && a == b
  {
  }

  /** Bits 1 to 6 as a number of their own, and so on down. */
  function Rest(r: Word, k: nat): nat
    requires |r| == 7 && k <= 7
    decreases 7 - k
  {
    if k == 7 then 0 else BitVal(r[k]) + 2 * Rest(r, k + 1)
  }

  lemma NumberIsRest(r: Word)
    requires |r| == 7
    ensures Number(r) == Rest(r, 0)
  {
    assert Rest(r, 7) == 0;
    assert Rest(r, 4) == BitVal(r[4]) + 2 * BitVal(r[5]) + 4 * BitVal(r[6]);
    assert Rest(r, 2) == BitVal(r[2]) + 2 * BitVal(r[3]) + 4 * Rest(r, 4);
  }

  lemma {:induction false} RestInjective(r: Word, s: Word, k: nat)
    requires |r| == |s| == 7 && k <= 7 && Rest(r, k) == Rest(s, k)
    ensures forall i :: k <= i < 7 ==> r[i] == s[i]
    decreases 7 - k
  {
    hide BitVal;
    if k < 7 {
      LastBit(r[k], Rest(r, k + 1), s[k], Rest(s, k + 1));
      RestInjective(r, s, k + 1);
    }
  }

  lemma NumberInjective(r: Word, s: Word)
    requires |r| == |s| == 7 && Number(r) == Number(s)
    ensures r == s
  {
    hide Number, Rest;
    NumberIsRest(r);
    NumberIsRest(s);
    RestInjective(r, s, 0);
  }

  function Complement(r: Word): (s: Word)
    requires |r| == 7
    ensures |s| == 7
  {
    [!r[0], !r[1], !r[2], !r[3], !r[4], !r[5], r[6]]
  }

  lemma ComplementNumber(r: Word, s: Word)
    requires |r| == |s| == 7 && r[6]
    ensures Number(Complement(r)) == 191 - Number(r)
    ensures Complementary(r, s) <==> s == Complement(r)
  {
    ComplementAlone(r, s);
    hide Complementary;
  }

  lemma ComplementAlone(r: Word, s: Word)
    requires |r| == |s| == 7
    ensures Complementary(r, s) <==> s == Complement(r)
  {
  }

  lemma LoadsComplement(c: nat, d: nat)
    requires c < 64 && d < 64
    ensures Load(c) == Load(d) <==> c == d
    ensures Complementary(Load(c), Load(d)) <==> d == 63 - c
  {
    hide Load, Number, Complement, Complementary;
    LoadNumber(c);
    LoadNumber(d);
    LoadTop(c);
    ComplementNumber(Load(c), Load(d));
    if d == 63 - c {
      NumberInjective(Complement(Load(c)), Load(d));
    }
  }

  lemma LoadTop(c: nat)
    requires c < 64
    ensures Load(c)[6]
  {
  }

  /** How two keys differ: the recurrence holds, and the first seven bits follow from the registers. */
  lemma KeyDifference(c: nat, d: nat) returns (w: Word)
    requires c < 64 && d < 64
    ensures w == Xor(TableKey(c, 0, 18), TableKey(d, 0, 18)) && |w| == 18 && !w[0] && Recurs(w)
    ensures (w[1] == w[2] == w[3]) && !w[4] && !w[5] && !w[6]
       <==> Load(c) == Load(d) || Complementary(Load(c), Load(d))
  {
    hide Load, After, Key, Index;
    var r, s := Load(c), Load(d);
    w := Xor(TableKey(c, 0, 18), TableKey(d, 0, 18));
    TableIsRegister(c, 0, 18);
    TableIsRegister(d, 0, 18);
    forall n: nat | n < 18 ensures w[n] == (Out(r, n) != Out(s, n)) {
      assert RegisterKey(c, 0, 18)[n] == Out(r, 0 + n);
      assert RegisterKey(d, 0, 18)[n] == Out(s, 0 + n);
    }
    LoadTop(c);
    LoadTop(d);
    FirstSeven(r);
    FirstSeven(s);
    SixDifferences(r, s, w);
    forall n: nat | n < 11 ensures RecursAt(w, n) {
      Recurrence(r, n);
      Recurrence(s, n);
    }
  }

  lemma SixDifferences(r: Word, s: Word, w: Word)
    requires |r| == |s| == 7 && |w| == 18 && r[6] && s[6]
    requires w[1] == (r[5] != s[5]) && w[2] == (r[4] != s[4]) && w[3] == (r[3] != s[3])
    requires w[4] == ((r[2] != r[5]) != (s[2] != s[5])) && w[5] == ((r[1] != r[4]) != (s[1] != s[4]))
    requires w[6] == ((r[0] != (r[3] != r[6])) != (s[0] != (s[3] != s[6])))
    ensures (w[1] == w[2] == w[3]) && !w[4] && !w[5] && !w[6] <==> r == s || Complementary(r, s)
  {
  }

  lemma CleanMeans(h: Header, uap: Word, c: nat, d: nat)
    requires h.Valid() && |uap| == 8 && c < 64 && d < 64
    ensures HecOkClean(OnAir(h, uap, c), uap, d) <==> UapOf(Whitened(d, 0, Whitened(c, 0, Checked(h, uap)))) == uap
    ensures UapOf(Checked(h, uap)) == uap
  {
    hide Hec, UapFromHec, Repeated, Checked, Majority, Overruled, AllNear, Whitened;
    var sent := Whitened(c, 0, Checked(h, uap));
    SentIsNear(Repeated(sent), sent);
    Closest(Repeated(sent), sent);
    FieldsOfChecked(h, uap);
    HecBijective(HeaderData(h), Hec(uap, HeaderData(h)), uap);
  }

  /** A header sent with clock value c passes the clean check for the sender's UAP under the trial values
      c and 63 - c, and under no other. */
  lemma TrialAccepts(h: Header, uap: Word, c: nat, d: nat)
    requires h.Valid() && |uap| == 8 && c < 64 && d < 64
    ensures HecOkClean(OnAir(h, uap, c), uap, d) <==> d == c || d == 63 - c
  {
    hide HecOkClean, Checked, Reg, Load, Recurs, Complementary, UapOf;
    CleanMeans(h, uap, c, d);
    var w := KeyDifference(c, d);
    var v := Whitened(d, 0, Whitened(c, 0, Checked(h, uap)));
    WhitenTwice(c, d, Checked(h, uap));
    SameUap(v, Checked(h, uap));
    Kernel(w);
    LoadsComplement(c, d);
  }

  lemma WhitenTwice(c: nat, d: nat, b: Word)
    requires c < 64 && d < 64
    ensures Xor(Whitened(d, 0, Whitened(c, 0, b)), b) == Xor(TableKey(c, 0, |b|), TableKey(d, 0, |b|))
  {
  }

  /** The 64 trial clocks of one received header fall into 32 pairs: two of them yield the same UAP exactly
      when they add up to 63. */
  lemma TrialUapsPair(received: Word, c: nat, d: nat)
    requires |received| == 18 && c < 64 && d < 64 && c != d
    ensures UapOf(Whitened(c, 0, received)) == UapOf(Whitened(d, 0, received)) <==> c + d == 63
  {
    hide Reg, Load, Recurs, Complementary, UapOf;
    var w := KeyDifference(c, d);
    var v, x := Whitened(c, 0, received), Whitened(d, 0, received);
    assert Xor(v, x) == w;
    SameUap(v, x);
    Kernel(w);
    LoadsComplement(c, d);
  }
}
