/** The 2/3 rate forward error correction of BR/EDR: the (15,10) shortened Hamming code of Bluetooth Core,
    Vol 2 Part B, section 7.5.  Bit 0 of a block is the first bit on air. */
module BredrFec {
  import opened Bits
  import opened Distances

  const BLOCK: nat := 15
  const INFO: nat := 10

  // ---- the remainder the decoder computes ----

  /** x^5 + x^3 + x + 1 moved up so that its top term is at `bit`. */
  function Generator(bit: nat): (g: Word)
    requires 5 <= bit < BLOCK
    ensures |g| == BLOCK
  {
    seq(BLOCK, i => i == bit || i == bit - 2 || i == bit - 4 || i == bit - 5)
  }

  function Cancel(rem: Word, bit: nat): (r: Word)
    requires |rem| == BLOCK && 5 <= bit < BLOCK
    ensures |r| == BLOCK && !r[bit]
    ensures forall i :: bit < i < BLOCK ==> r[i] == rem[i]
  {
    if rem[bit] then Xor(rem, Generator(bit)) else rem
  }

  function CancelFrom(rem: Word, bit: nat): (r: Word)
    requires |rem| == BLOCK && bit < BLOCK
    requires forall i :: bit < i < BLOCK ==> !rem[i]
    ensures |r| == BLOCK && forall i :: 5 <= i < BLOCK ==> !r[i]
    decreases bit
  {
    if bit < 5 then rem else CancelFrom(Cancel(rem, bit), bit - 1)
  }

  function Remainder(codeword: Word): (r: Word)
    requires |codeword| == BLOCK
    ensures |r| == 5
  {
    CancelFrom(codeword, BLOCK - 1)[..5]
  }

  method FecRemainder(codeword: Word) returns (r: Word)
    requires |codeword| == BLOCK
    ensures r == Remainder(codeword)
  {
    var rem := codeword;
    var bit := 14;
    while bit >= 5
      invariant 4 <= bit <= 14 && |rem| == BLOCK
      invariant forall i :: bit < i < BLOCK ==> !rem[i]
      invariant CancelFrom(rem, bit) == CancelFrom(codeword, 14)
    {
      rem := Cancel(rem, bit);
      bit := bit - 1;
    }
    return rem[..5];
  }

  // ---- arithmetic modulo the generator ----

  /** Multiplication by x, with x^5 = x^3 + x + 1. */
  function TimesX(w: Word): (r: Word)
    requires |w| == 5
    ensures |r| == 5
  {
    [w[4], w[0] != w[4], w[1], w[2] != w[4], w[3]]
  }

  function TimesXTo(n: nat, w: Word): (r: Word)
    requires |w| == 5
    ensures |r| == 5
  {
    if n == 0 then w else TimesX(TimesXTo(n - 1, w))
  }

  function Constant(d: bool): (r: Word)
    ensures |r| == 5
  {
    [d, false, false, false, false]
  }

  /** The polynomial with the bits of c as coefficients, modulo the generator. */
  function Eval(c: Word): (r: Word)
    ensures |r| == 5
  {
    if |c| == 0 then Zeros(5) else Xor(Constant(c[0]), TimesX(Eval(c[1..])))
  }

  predicate Odd(w: Word)
    requires |w| == 5
  {
    (w[0] != w[1]) != ((w[2] != w[3]) != w[4])
  }

  lemma TimesXLinear(a: Word, b: Word)
    requires |a| == |b| == 5
    ensures TimesX(Xor(a, b)) == Xor(TimesX(a), TimesX(b))
  {
  }

  lemma TimesXInjective(a: Word, b: Word)
    requires |a| == |b| == 5 && TimesX(a) == TimesX(b)
    ensures a == b
  {
    assert TimesX(a)[0] == TimesX(b)[0] && TimesX(a)[1] == TimesX(b)[1] && TimesX(a)[2] == TimesX(b)[2];
    assert TimesX(a)[3] == TimesX(b)[3] && TimesX(a)[4] == TimesX(b)[4];
  }

  lemma {:induction false} TimesXToLinear(n: nat, a: Word, b: Word)
    requires |a| == |b| == 5
    ensures TimesXTo(n, Xor(a, b)) == Xor(TimesXTo(n, a), TimesXTo(n, b))
  {
    if n > 0 {
      TimesXToLinear(n - 1, a, b);
      TimesXLinear(TimesXTo(n - 1, a), TimesXTo(n - 1, b));
    }
  }

  lemma {:induction false} TimesXToInjective(n: nat, a: Word, b: Word)
    requires |a| == |b| == 5 && TimesXTo(n, a) == TimesXTo(n, b)
    ensures a == b
  {
    if n > 0 {
      TimesXInjective(TimesXTo(n - 1, a), TimesXTo(n - 1, b));
      TimesXToInjective(n - 1, a, b);
    }
  }

  /** (x + 1) divides the generator, so multiplication keeps the parity of the weight. */
  lemma {:induction false} TimesXToOdd(n: nat, w: Word)
    requires |w| == 5
    ensures Odd(TimesXTo(n, w)) == Odd(w)
  {
    if n > 0 {
      TimesXToOdd(n - 1, w);
    }
  }

  lemma EvalStep(c: Word)
    requires |c| > 0
    ensures Eval(c) == Xor(Constant(c[0]), TimesX(Eval(c[1..])))
  {
  }

  lemma {:induction false} EvalLinear(a: Word, b: Word)
    requires |a| == |b|
    ensures Eval(Xor(a, b)) == Xor(Eval(a), Eval(b))
  {
    if |a| == 0 {
      assert Xor(a, b) == [];
      assert Xor(Zeros(5), Zeros(5)) == Zeros(5);
    } else {
      hide Eval, TimesX, Constant;
      EvalLinear(a[1..], b[1..]);
      EvalStep(a);
      EvalStep(b);
      EvalStep(Xor(a, b));
      XorTail(a, b);
      TimesXLinear(Eval(a[1..]), Eval(b[1..]));
      ConstantLinear(a[0], b[0]);
      hide Xor;
      XorExchange(Constant(a[0]), TimesX(Eval(a[1..])), Constant(b[0]), TimesX(Eval(b[1..])));
    }
  }

  lemma XorTail(a: Word, b: Word)
    requires |a| == |b| > 0
    ensures Xor(a, b)[1..] == Xor(a[1..], b[1..])
  {
  }

  lemma ConstantLinear(d: bool, e: bool)
    ensures Xor(Constant(d), Constant(e)) == Constant(d != e)
  {
  }

  lemma {:induction false} EvalZeros(n: nat)
    ensures Eval(Zeros(n)) == Zeros(5)
  {
    if n > 0 {
      EvalZeros(n - 1);
      assert Zeros(n)[1..] == Zeros(n - 1);
    }
  }

  lemma {:induction false} EvalUnit(n: nat, k: nat)
    requires k < n
    ensures Eval(Unit(n, k)) == TimesXTo(k, Constant(true))
  {
    if k == 0 {
      EvalZeros(n - 1);
      assert Unit(n, k)[1..] == Zeros(n - 1);
      assert Xor(Constant(true), TimesX(Zeros(5))) == Constant(true);
    } else {
      hide TimesX;
      EvalUnit(n - 1, k - 1);
      assert Unit(n, k)[1..] == Unit(n - 1, k - 1);
      var t := TimesXTo(k - 1, Constant(true));
      XorCancels(TimesX(t), Zeros(5));
      assert Constant(false) == Zeros(5);
    }
  }

  lemma {:induction false} EvalConcat(a: Word, b: Word)
    ensures Eval(a + b) == Xor(Eval(a), TimesXTo(|a|, Eval(b)))
  {
    if |a| == 0 {
      assert a + b == b;
      assert Xor(Zeros(5), Eval(b)) == Eval(b);
    } else {
      EvalConcat(a[1..], b);
      assert (a + b)[1..] == a[1..] + b;
      EvalStep(a);
      EvalStep(a + b);
      TimesXLinear(Eval(a[1..]), TimesXTo(|a| - 1, Eval(b)));
      hide Eval, TimesX, Constant;
      XorAssociates(Constant(a[0]), TimesX(Eval(a[1..])), TimesXTo(|a|, Eval(b)));
    }
  }

  /** A polynomial of degree below five is its own remainder. */
  lemma {:induction false} EvalShort(w: Word)
    requires |w| <= 5
    ensures Eval(w) == w + Zeros(5 - |w|)
  {
    if |w| == 0 {
      assert w + Zeros(5) == Zeros(5);
    } else {
      EvalShort(w[1..]);
      EvalStep(w);
      ShortShift(w[0], w[1..]);
      assert [w[0]] + w[1..] == w;
    }
  }

  lemma ShortShift(d: bool, t: Word)
    requires |t| <= 4
    ensures Xor(Constant(d), TimesX(t + Zeros(5 - |t|))) == [d] + t + Zeros(4 - |t|)
  {
  }

  // ---- the remainder is evaluation modulo the generator ----

  lemma GeneratorRelation(w: Word)
    requires |w| == 5
    ensures Xor(Xor(TimesX(TimesX(TimesX(TimesX(TimesX(w))))), TimesX(TimesX(TimesX(w)))), Xor(TimesX(w), w))
         == Zeros(5)
  {
  }

  lemma EvalGenerator(bit: nat)
    requires 5 <= bit < BLOCK
    ensures Eval(Generator(bit)) == Zeros(5)
  {
    var n := BLOCK;
    var a, b := Xor(Unit(n, bit), Unit(n, bit - 2)), Xor(Unit(n, bit - 4), Unit(n, bit - 5));
    assert Generator(bit) == Xor(a, b);
    hide Xor, Unit, Generator, Eval, TimesX;
    EvalLinear(a, b);
    EvalLinear(Unit(n, bit), Unit(n, bit - 2));
    EvalLinear(Unit(n, bit - 4), Unit(n, bit - 5));
    EvalUnit(n, bit);
    EvalUnit(n, bit - 2);
    EvalUnit(n, bit - 4);
    EvalUnit(n, bit - 5);
    FiveTimes(bit - 5);
    GeneratorRelation(TimesXTo(bit - 5, Constant(true)));
  }

  lemma FiveTimes(n: nat)
    ensures var w := TimesXTo(n, Constant(true));
            && TimesXTo(n + 1, Constant(true)) == TimesX(w)
            && TimesXTo(n + 3, Constant(true)) == TimesX(TimesX(TimesX(w)))
            && TimesXTo(n + 5, Constant(true)) == TimesX(TimesX(TimesX(TimesX(TimesX(w)))))
  {
    hide TimesX;
    assert TimesXTo(n + 2, Constant(true)) == TimesX(TimesXTo(n + 1, Constant(true)));
    assert TimesXTo(n + 4, Constant(true)) == TimesX(TimesXTo(n + 3, Constant(true)));
  }

  lemma CancelKeepsEval(rem: Word, bit: nat)
    requires |rem| == BLOCK && 5 <= bit < BLOCK
    ensures Eval(Cancel(rem, bit)) == Eval(rem)
  {
    hide Eval;
    if rem[bit] {
      EvalLinear(rem, Generator(bit));
      EvalGenerator(bit);
      XorCancels(Eval(rem), Zeros(5));
    }
  }

  lemma {:induction false} CancelFromKeepsEval(rem: Word, bit: nat)
    requires |rem| == BLOCK && bit < BLOCK
    requires forall i :: bit < i < BLOCK ==> !rem[i]
    ensures Eval(CancelFrom(rem, bit)) == Eval(rem)
    decreases bit
  {
    hide Eval, Cancel;
    if bit >= 5 {
      CancelKeepsEval(rem, bit);
      CancelFromKeepsEval(Cancel(rem, bit), bit - 1);
    }
  }

  /** The shift-and-cancel loop computes the codeword's value modulo the generator. */
  lemma RemainderIsEval(c: Word)
    requires |c| == BLOCK
    ensures Remainder(c) == Eval(c)
  {
    hide Eval, CancelFrom;
    var r := CancelFrom(c, BLOCK - 1);
    CancelFromKeepsEval(c, BLOCK - 1);
    assert r == r[..5] + Zeros(10);
    EvalConcat(r[..5], Zeros(10));
    EvalShort(r[..5]);
    EvalZeros(10);
    TimesXToZero(5);
    XorCancels(r[..5], Zeros(5));
    assert r[..5] + Zeros(0) == r[..5];
  }

  lemma {:induction false} TimesXToZero(n: nat)
    ensures TimesXTo(n, Zeros(5)) == Zeros(5)
  {
    if n > 0 {
      TimesXToZero(n - 1);
    }
  }

  // ---- distances between codewords ----

  ghost predicate IsCodeword(c: Word) {
    |c| == BLOCK && Eval(c) == Zeros(5)
  }

  /** x to the i, modulo the generator. */
  function Power(i: nat): (w: Word)
    ensures |w| == 5
  {
    TimesXTo(i, Constant(true))
  }

  /** The powers of x, one by one; x has order fifteen. */
  function PowerTable(k: nat): (w: Word)
    requires k < 15
    ensures |w| == 5
  {
    match k
    case 0 => [true, false, false, false, false]
    case 1 => [false, true, false, false, false]
    case 2 => [false, false, true, false, false]
    case 3 => [false, false, false, true, false]
    case 4 => [false, false, false, false, true]
    case 5 => [true, true, false, true, false]
    case 6 => [false, true, true, false, true]
    case 7 => [true, true, true, false, false]
    case 8 => [false, true, true, true, false]
    case 9 => [false, false, true, true, true]
    case 10 => [true, true, false, false, true]
    case 11 => [true, false, true, true, false]
    case 12 => [false, true, false, true, true]
    case 13 => [true, true, true, true, true]
    case _ => [true, false, true, false, true]
  }

  lemma PowerTableStep(k: nat)
    requires 0 < k < 15
    ensures PowerTable(k) == TimesX(PowerTable(k - 1))
  {
  }

  lemma {:induction false} PowerIs(k: nat)
    requires k < 15
    ensures Power(k) == PowerTable(k)
  {
    if k > 0 {
      PowerIs(k - 1);
      PowerTableStep(k);
    }
  }

  lemma {:induction false} TimesXToSplit(m: nat, n: nat, w: Word)
    requires |w| == 5
    ensures TimesXTo(m + n, w) == TimesXTo(m, TimesXTo(n, w))
  {
    if m > 0 {
      TimesXToSplit(m - 1, n, w);
    }
  }

  lemma NotOne(w: Word, v: Word)
    requires |v| == |w| == 5 && v[0] && !v[1] && !v[2]
    requires !w[0] || w[1] || w[2]
    ensures w != v
  {
  }

  lemma PowersDiffer(i: nat, j: nat)
    requires i < j < BLOCK
    ensures Power(i) != Power(j)
  {
    if Power(i) == Power(j) {
      TimesXToSplit(i, j - i, Constant(true));
      TimesXToInjective(i, Constant(true), Power(j - i));
      PowerIs(j - i);
      NotOne(PowerTable(j - i), Constant(true));
    }
  }

  lemma OddXor(a: Word, b: Word)
    requires |a| == |b| == 5
    ensures Odd(Xor(a, b)) == (Odd(a) != Odd(b))
  {
  }

  lemma PowerOdd(i: nat)
    ensures Odd(Power(i)) && !Odd(Zeros(5))
  {
    TimesXToOdd(i, Constant(true));
  }

  /** Flipping bit i adds x^i to the value of a block. */
  lemma EvalFlip(c: Word, i: nat)
    requires i < |c|
    ensures Eval(Flip(c, i)) == Xor(Eval(c), Power(i))
  {
    FlipIsXor(c, i);
    EvalLinear(c, Unit(|c|, i));
    EvalUnit(|c|, i);
  }

  /** One flip away from a codeword: no codeword, and that flip alone repairs it. */
  lemma OneFlip(c: Word, i: nat, j: nat)
    requires IsCodeword(c) && i < BLOCK && j < BLOCK
    ensures !IsCodeword(Flip(c, i))
    ensures IsCodeword(Flip(Flip(c, i), j)) ==> i == j
  {
    hide Eval, Odd, Xor;
    EvalFlip(c, i);
    EvalFlip(Flip(c, i), j);
    XorCancels(Power(i), Zeros(5));
    PowerOdd(i);
    if IsCodeword(Flip(Flip(c, i), j)) && i != j {
      XorCancels(Power(i), Power(j));
      if i < j {
        PowersDiffer(i, j);
      } else {
        PowersDiffer(j, i);
      }
    }
  }

  /** Two flips away from a codeword: no codeword, and no single flip repairs it. */
  lemma TwoFlips(c: Word, i: nat, j: nat, k: nat)
    requires IsCodeword(c) && i < BLOCK && j < BLOCK && k < BLOCK && i != j
    ensures !IsCodeword(Flip(Flip(c, i), j))
    ensures !IsCodeword(Flip(Flip(Flip(c, i), j), k))
  {
    hide Eval, Odd, Xor;
    OneFlip(c, i, j);
    EvalFlip(c, i);
    EvalFlip(Flip(c, i), j);
    EvalFlip(Flip(Flip(c, i), j), k);
    PowerOdd(i);
    PowerOdd(j);
    PowerOdd(k);
    OddXor(Zeros(5), Power(i));
    OddXor(Eval(Flip(c, i)), Power(j));
    OddXor(Eval(Flip(Flip(c, i), j)), Power(k));
  }

  // ---- the encoder of section 7.5 ----

  /** One clock of the encoder's register, D^5 + D^4 + D^2 + 1. */
  function EncoderStep(reg: Word, d: bool): (r: Word)
    requires |reg| == 5
    ensures |r| == 5
  {
    var fb := d != reg[4];
    [fb, reg[0], reg[1] != fb, reg[2], reg[3] != fb]
  }

  function EncoderRun(reg: Word, m: Word): (r: Word)
    requires |reg| == 5
    ensures |r| == 5
    decreases m
  {
    if |m| == 0 then reg else EncoderRun(EncoderStep(reg, m[0]), m[1..])
  }

  function Backwards(w: Word): (r: Word)
    requires |w| == 5
    ensures |r| == 5
  {
    [w[4], w[3], w[2], w[1], w[0]]
  }

  /** Ten information bits, then the register read out from its top end. */
  function EncodeBlock(m: Word): (c: Word)
    requires |m| == INFO
    ensures |c| == BLOCK && c[..INFO] == m
  {
    m + Backwards(EncoderRun(Zeros(5), m))
  }

  lemma BackwardsZero()
    ensures Backwards(Zeros(5)) == Zeros(5)
  {
  }

  lemma EncoderStepBackwards(reg: Word, d: bool)
    requires |reg| == 5
    ensures TimesX(Backwards(EncoderStep(reg, d))) == Xor(Backwards(reg), Constant(d))
  {
  }

  lemma {:induction false} EncoderIsDivision(reg: Word, m: Word)
    requires |reg| == 5
    ensures Xor(Backwards(reg), Eval(m)) == TimesXTo(|m|, Backwards(EncoderRun(reg, m)))
    decreases m
  {
    hide Backwards, EncoderStep, TimesX, Constant;
    if |m| == 0 {
      XorCancels(Backwards(reg), Zeros(5));
    } else {
      var next := EncoderStep(reg, m[0]);
      EncoderIsDivision(next, m[1..]);
      TimesXLinear(Backwards(next), Eval(m[1..]));
      EncoderStepBackwards(reg, m[0]);
      EvalStep(m);
      hide Xor, Eval;
      XorAssociates(Backwards(reg), Constant(m[0]), TimesX(Eval(m[1..])));
    }
  }

  /** What the standard's encoder sends, the decoder's reciprocal generator divides. */
  lemma EncodedIsCodeword(m: Word)
    requires |m| == INFO
    ensures IsCodeword(EncodeBlock(m))
  {
    hide Backwards, Eval;
    var p := Backwards(EncoderRun(Zeros(5), m));
    EncoderIsDivision(Zeros(5), m);
    BackwardsZero();
    EvalConcat(m, p);
    EvalShort(p);
    assert p + Zeros(0) == p;
    XorCancels(Eval(m), Zeros(5));
    XorCancels(Zeros(5), Eval(m));
    XorCancels(Eval(m), Eval(m));
  }

  /** Each information word has exactly one parity extension. */
  lemma ParityUnique(c: Word, d: Word)
    requires IsCodeword(c) && IsCodeword(d) && c[..INFO] == d[..INFO]
    ensures c == d
  {
    hide Eval;
    assert c == c[..INFO] + c[INFO..] && d == d[..INFO] + d[INFO..];
    EvalConcat(c[..INFO], c[INFO..]);
    EvalConcat(d[..INFO], d[INFO..]);
    EvalShort(c[INFO..]);
    EvalShort(d[INFO..]);
    assert c[INFO..] + Zeros(0) == c[INFO..] && d[INFO..] + Zeros(0) == d[INFO..];
    XorCancels(Eval(c[..INFO]), TimesXTo(INFO, c[INFO..]));
    XorCancels(Eval(c[..INFO]), TimesXTo(INFO, d[INFO..]));
    TimesXToInjective(INFO, c[INFO..], d[INFO..]);
  }

  // ---- the decoder ----

  datatype Corrected = Bad | Good(word: Word, errors: nat)

  /** The first position at or after `bit` whose flip makes a codeword. */
  function FirstRepair(c: Word, bit: nat): (r: nat)
    requires |c| == BLOCK && bit <= BLOCK
    ensures bit <= r <= BLOCK
    ensures r < BLOCK ==> Remainder(Flip(c, r)) == Zeros(5)
    ensures forall j :: bit <= j < r ==> Remainder(Flip(c, j)) != Zeros(5)
    decreases BLOCK - bit
  {
    if bit == BLOCK || Remainder(Flip(c, bit)) == Zeros(5) then bit else FirstRepair(c, bit + 1)
  }

  function CorrectBlock(c: Word): (r: Corrected)
    requires |c| == BLOCK
    ensures r.Good? ==> |r.word| == BLOCK
  {
    if Remainder(c) == Zeros(5) then Good(c, 0)
    else if FirstRepair(c, 0) < BLOCK then Good(Flip(c, FirstRepair(c, 0)), 1)
    else Bad
  }

  /** Whatever comes out is a codeword at the reported distance; a codeword within one flip is found, and
      two flips are always noticed. */
  lemma BlockDecoding(c: Word, s: Word)
    requires |c| == BLOCK && IsCodeword(s)
    ensures var r := CorrectBlock(c);
            && (r.Good? ==> IsCodeword(r.word) && Distance(c, r.word) == r.errors <= 1)
            && (Distance(c, s) <= 1 ==> r == Good(s, Distance(c, s)))
            && (Distance(c, s) == 2 ==> r == Bad)
  {
    hide Eval, Remainder;
    RemainderIsEval(c);
    forall j | 0 <= j < BLOCK ensures Remainder(Flip(c, j)) == Eval(Flip(c, j)) {
      RemainderIsEval(Flip(c, j));
    }
    if FirstRepair(c, 0) < BLOCK {
      FlipDistance(c, FirstRepair(c, 0));
      DistanceSymmetric(c, Flip(c, FirstRepair(c, 0)));
    }
    if Distance(c, s) == 1 {
      NearCodeword(c, s);
    } else if Distance(c, s) == 2 {
      FarFromCodeword(c, s);
    }
  }

  lemma NearCodeword(c: Word, s: Word)
    requires |c| == BLOCK && IsCodeword(s) && Distance(c, s) == 1
    ensures !IsCodeword(c)
    ensures exists i :: 0 <= i < BLOCK && Flip(c, i) == s
    ensures forall j :: 0 <= j < BLOCK && IsCodeword(Flip(c, j)) ==> Flip(c, j) == s
  {
    hide Eval;
    var i := SomeFlip(c, s);
    FlipIsXor(c, i);
    assert Flip(s, i) == c;
    forall j | 0 <= j < BLOCK && IsCodeword(Flip(c, j)) ensures Flip(c, j) == s {
      OneFlip(s, i, j);
    }
    OneFlip(s, i, i);
  }

  lemma FarFromCodeword(c: Word, s: Word)
    requires |c| == BLOCK && IsCodeword(s) && Distance(c, s) == 2
    ensures !IsCodeword(c)
    ensures forall k :: 0 <= k < BLOCK ==> !IsCodeword(Flip(c, k))
  {
    hide Eval;
    var j := SomeFlip(c, s);
    var i := SomeFlip(Flip(c, j), s);
    FlipIsXor(c, j);
    FlipIsXor(Flip(c, j), i);
    assert Flip(s, i) == Flip(c, j) && Flip(Flip(s, i), j) == c;
    assert i != j;
    forall k | 0 <= k < BLOCK ensures !IsCodeword(Flip(c, k)) {
      TwoFlips(s, i, j, k);
    }
    TwoFlips(s, i, j, 0);
  }

  datatype Decoded = Failed | Decoded(bits: Word, errors: nat)

  function Block(s: Word, k: nat): (b: Word)
    requires BLOCK * (k + 1) <= |s|
    ensures |b| == BLOCK
  {
    s[BLOCK * k..BLOCK * (k + 1)]
  }

  /** The first `n` blocks decoded; one block beyond repair fails the whole. */
  function Decode(input: Word, n: nat): (d: Decoded)
    requires BLOCK * n <= |input|
    ensures d.Decoded? ==> |d.bits| == INFO * n
  {
    if n == 0 then Decoded([], 0)
    else
      match Decode(input, n - 1)
      case Failed => Failed
      case Decoded(bits, errors) =>
        match CorrectBlock(Block(input, n - 1))
        case Bad => Failed
        case Good(w, e) => Decoded(bits + w[..INFO], errors + e)
  }

  lemma {:induction false} FailureSticks(input: Word, n: nat, m: nat)
    requires n <= m && BLOCK * m <= |input| && Decode(input, n).Failed?
    ensures Decode(input, m).Failed?
  {
    hide CorrectBlock, Block;
    if n < m {
      FailureSticks(input, n, m - 1);
    }
  }

  /** Leave a codeword alone, otherwise try the fifteen single flips in order. */
  method RepairBlock(c: Word) returns (r: Corrected)
    requires |c| == BLOCK
    ensures r == CorrectBlock(c)
  {
    hide Remainder;
    var rem := FecRemainder(c);
    if rem == Zeros(5) {
      return Good(c, 0);
    }
    var bit := 0;
    while bit < BLOCK
      invariant bit <= BLOCK
      invariant FirstRepair(c, bit) == FirstRepair(c, 0)
    {
      rem := FecRemainder(Flip(c, bit));
      if rem == Zeros(5) {
        return Good(Flip(c, bit), 1);
      }
      bit := bit + 1;
    }
    return Bad;
  }

  /** Decode a whole payload: refused unless it is whole blocks. */
  method FecDecode23(input: Word) returns (r: Decoded)
    ensures |input| % BLOCK != 0 ==> r.Failed?
    ensures |input| % BLOCK == 0 ==> r == Decode(input, |input| / BLOCK)
  {
    hide CorrectBlock;
    if |input| % BLOCK != 0 {
      return Failed;
    }
    var count := |input| / BLOCK;
    var output: Word, errors: nat := [], 0;
    var block := 0;
    while block < count
      invariant block <= count && |output| == INFO * block
      invariant Decode(input, block) == Decoded(output, errors)
    {
      var corrected := RepairBlock(Block(input, block));
      if corrected.Bad? {
        FailureSticks(input, block + 1, count);
        return Failed;
      }
      errors := errors + corrected.errors;
      output := output + corrected.word[..INFO];
      block := block + 1;
    }
    return Decoded(output, errors);
  }

  // ---- whole payloads ----

  ghost predicate IsCodeStream(s: Word, n: nat) {
    |s| == BLOCK * n && forall k :: 0 <= k < n ==> IsCodeword(Block(s, k))
  }

  /** The information bits of the first n blocks. */
  function InfoBits(s: Word, n: nat): (m: Word)
    requires BLOCK * n <= |s|
    ensures |m| == INFO * n
  {
    if n == 0 then [] else InfoBits(s, n - 1) + Block(s, n - 1)[..INFO]
  }

  function EncodePayload(m: Word, n: nat): (s: Word)
    requires INFO * n <= |m|
    ensures |s| == BLOCK * n
  {
    if n == 0 then [] else EncodePayload(m, n - 1) + EncodeBlock(m[INFO * (n - 1)..INFO * n])
  }

  /** At most one flip in each of the first n blocks. */
  ghost predicate AllNear(received: Word, sent: Word, n: nat)
    requires BLOCK * n <= |received| == |sent|
  {
    forall k :: 0 <= k < n ==> Distance(Block(received, k), Block(sent, k)) <= 1
  }

  /** Flips in the first n blocks. */
  function Flips(received: Word, sent: Word, n: nat): nat
    requires BLOCK * n <= |received| == |sent|
  {
    Distance(received[..BLOCK * n], sent[..BLOCK * n])
  }

  /** At most one flip in every block: the message comes back, with the number of flips. */
  lemma {:induction false} AllRepaired(received: Word, sent: Word, n: nat, total: nat)
    requires n <= total && IsCodeStream(sent, total) && |received| == |sent| && BLOCK * n <= |sent|
    requires AllNear(received, sent, n)
    ensures Decode(received, n) == Decoded(InfoBits(sent, n), Flips(received, sent, n))
  {
    hide *;
    if n == 0 {
      NoBlocks(received, sent);
    } else {
      BlockRepaired(received, sent, n, total);
      AllRepaired(received, sent, n - 1, total);
      LastBlockDistance(received, sent, n);
      DecodeNext(received, sent, n);
    }
  }

  lemma NoBlocks(received: Word, sent: Word)
    requires |received| == |sent|
    ensures Decode(received, 0) == Decoded(InfoBits(sent, 0), Flips(received, sent, 0))
  {
    assert received[..0] == sent[..0];
  }

  lemma BlockRepaired(received: Word, sent: Word, n: nat, total: nat)
    requires 0 < n <= total && IsCodeStream(sent, total) && |received| == |sent| && BLOCK * n <= |sent|
    requires AllNear(received, sent, n)
    ensures AllNear(received, sent, n - 1)
    ensures CorrectBlock(Block(received, n - 1))
         == Good(Block(sent, n - 1), Distance(Block(received, n - 1), Block(sent, n - 1)))
  {
    hide Block, Distance, CorrectBlock;
    BlockDecoding(Block(received, n - 1), Block(sent, n - 1));
  }

  lemma DecodeNext(received: Word, sent: Word, n: nat)
    requires 0 < n && BLOCK * n <= |received| == |sent|
    requires Decode(received, n - 1).Decoded? && CorrectBlock(Block(received, n - 1)).Good?
    ensures var d, c := Decode(received, n - 1), CorrectBlock(Block(received, n - 1));
            Decode(received, n) == Decoded(d.bits + c.word[..INFO], d.errors + c.errors)
    ensures InfoBits(sent, n) == InfoBits(sent, n - 1) + Block(sent, n - 1)[..INFO]
  {
  }

  lemma LastBlockDistance(received: Word, sent: Word, n: nat)
    requires 0 < n && BLOCK * n <= |received| == |sent|
    ensures Flips(received, sent, n) == Flips(received, sent, n - 1)
                                      + Distance(Block(received, n - 1), Block(sent, n - 1))
  {
    hide Distance;
    var at := BLOCK * (n - 1);
    LastBlock(received, n);
    LastBlock(sent, n);
    DistanceSplit(received[..at], sent[..at], Block(received, n - 1), Block(sent, n - 1));
  }

  lemma LastBlock(s: Word, n: nat)
    requires 0 < n && BLOCK * n <= |s|
    ensures s[..BLOCK * n] == s[..BLOCK * (n - 1)] + Block(s, n - 1)
  {
  }

  /** Exactly two flips in any one block: the whole payload is refused, whatever the other blocks hold. */
  lemma DoubleFlipRefused(received: Word, sent: Word, n: nat, k: nat)
    requires IsCodeStream(sent, n) && |received| == |sent| && k < n
    requires Distance(Block(received, k), Block(sent, k)) == 2
    ensures Decode(received, n).Failed?
  {
    BlockDecoding(Block(received, k), Block(sent, k));
    FailureSticks(received, k + 1, n);
  }

  lemma {:induction false} EncodedIsStream(m: Word, n: nat)
    requires INFO * n <= |m|
    ensures IsCodeStream(EncodePayload(m, n), n)
  {
    if n > 0 {
      hide Block, IsCodeword;
      EncodedIsStream(m, n - 1);
      var last := EncodeBlock(m[INFO * (n - 1)..INFO * n]);
      EncodedIsCodeword(m[INFO * (n - 1)..INFO * n]);
      forall k | 0 <= k < n ensures IsCodeword(Block(EncodePayload(m, n), k)) {
        AppendedBlock(EncodePayload(m, n - 1), last, n - 1, k);
      }
    }
  }

  lemma {:induction false} EncodedInfo(m: Word, n: nat)
    requires INFO * n <= |m|
    ensures InfoBits(EncodePayload(m, n), n) == m[..INFO * n]
  {
    if n > 0 {
      hide Block, EncodeBlock;
      EncodedInfo(m, n - 1);
      var s, t := EncodePayload(m, n), EncodePayload(m, n - 1);
      var last := m[INFO * (n - 1)..INFO * n];
      AppendedBlock(t, EncodeBlock(last), n - 1, n - 1);
      SameInfo(t, s, n - 1);
      assert m[..INFO * n] == m[..INFO * (n - 1)] + last;
    }
  }

  lemma AppendedBlock(t: Word, c: Word, n: nat, k: nat)
    requires |t| == BLOCK * n && |c| == BLOCK && k <= n
    ensures Block(t + c, k) == if k == n then c else Block(t, k)
  {
  }

  lemma {:induction false} SameInfo(t: Word, s: Word, n: nat)
    requires BLOCK * n <= |t| <= |s| && t == s[..|t|]
    ensures InfoBits(t, n) == InfoBits(s, n)
  {
    if n > 0 {
      SameInfo(t, s, n - 1);
      assert Block(t, n - 1) == Block(s, n - 1);
    }
  }

  /** Encode, lose at most one bit in every block, decode. */
  lemma FecRoundTrip(m: Word, n: nat, received: Word)
    requires |m| == INFO * n && |received| == BLOCK * n
    requires AllNear(received, EncodePayload(m, n), n)
    ensures Decode(received, n) == Decoded(m, Distance(received, EncodePayload(m, n)))
  {
    var sent := EncodePayload(m, n);
    EncodedIsStream(m, n);
    EncodedInfo(m, n);
    AllRepaired(received, sent, n, n);
    assert m[..INFO * n] == m && received[..BLOCK * n] == received && sent[..BLOCK * n] == sent;
  }
}
