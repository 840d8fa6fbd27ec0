/** The header check and the payload check of BR/EDR (Bluetooth Core, Vol 2 Part B, sections 7.1.1 and 7.1.2):
    the program runs the header check backwards to get the UAP, and the payload check forwards. */
module BredrHec {
  import opened Bits

  // ---- the generator of section 7.1.1 ----

  /** Positions 0 to 7; D^8 + D^7 + D^5 + D^2 + D + 1. */
  function HecStep(s: Word, d: bool): (r: Word)
    requires |s| == 8
    ensures |r| == 8
  {
    var fb := s[7] != d;
    [fb, s[0] != fb, s[1] != fb, s[2], s[3], s[4] != fb, s[5], s[6] != fb]
  }

  function HecRun(s: Word, data: Word): (r: Word)
    requires |s| == 8
    ensures |r| == 8
  {
    if |data| == 0 then s else HecStep(HecRun(s, data[..|data| - 1]), data[|data| - 1])
  }

  /** The register is loaded with the UAP; position 7 is sent first. */
  function Hec(uap: Word, data: Word): (h: Word)
    requires |uap| == 8
    ensures |h| == 8
  {
    Reversed(HecRun(uap, data))
  }

  // ---- the program's backward run ----

  /** 0x65. */
  function HecTaps(): (t: Word)
    ensures |t| == 8
  {
    [true, false, true, false, false, true, true, false]
  }

  function Back(h: Word, d: bool): (r: Word)
    requires |h| == 8
    ensures |r| == 8
  {
    var x := if h[7] then Xor(h, HecTaps()) else h;
    [x[7] != d] + x[..7]
  }

  function BackRun(h: Word, data: Word): (r: Word)
    requires |h| == 8
    ensures |r| == 8
    decreases data
  {
    if |data| == 0 then h else BackRun(Back(h, data[|data| - 1]), data[..|data| - 1])
  }

  function UapFromHec(data: Word, hec: Word): (uap: Word)
    requires |hec| == 8
    ensures |uap| == 8
  {
    BitReverseByte(BackRun(hec, data))
  }

  method DecodeUapFromHec(data: Word, hec: Word) returns (uap: Word)
    requires |data| == 10 && |hec| == 8
    ensures uap == UapFromHec(data, hec)
  {
    hide Back, BitReverseByte;
    var h := hec;
    var i := 10;
    assert data[..10] == data;
    while i > 0
      invariant i <= 10 && |h| == 8
      invariant BackRun(h, data[..i]) == BackRun(hec, data)
    {
      i := i - 1;
      assert data[..i + 1][..i] == data[..i];
      h := Back(h, data[i]);
    }
    return BitReverseByte(h);
  }

  lemma BackUndoes(s: Word, d: bool)
    requires |s| == 8
    ensures Back(Reversed(HecStep(s, d)), d) == Reversed(s)
  {
  }

  lemma BackBits(h: Word, d: bool)
    requires |h| == 8
    ensures Back(h, d) == [h[7] != d, h[0] != h[7], h[1], h[2] != h[7], h[3], h[4], h[5] != h[7], h[6] != h[7]]
  {
  }

  lemma StepUndoes(h: Word, d: bool)
    requires |h| == 8
    ensures Reversed(HecStep(Reversed(Back(h, d)), d)) == h
  {
    hide Back, HecStep, Reversed;
    var s := Reversed(Back(h, d));
    BackUndoes(s, d);
    ReversedTwice(Back(h, d));
    BackInjective(Reversed(HecStep(s, d)), h, d);
  }

  lemma BackInjective(a: Word, b: Word, d: bool)
    requires |a| == |b| == 8 && Back(a, d) == Back(b, d)
    ensures a == b
  {
    hide Back;
    BackBits(a, d);
    BackBits(b, d);
    var r, s := Back(a, d), Back(b, d);
    assert r[0] == s[0] && r[1] == s[1] && r[2] == s[2] && r[3] == s[3];
    assert r[4] == s[4] && r[5] == s[5] && r[6] == s[6] && r[7] == s[7];
  }

  lemma {:induction false} BackRunUndoes(s: Word, data: Word)
    requires |s| == 8
    ensures BackRun(Reversed(HecRun(s, data)), data) == Reversed(s)
    decreases data
  {
    hide Back, HecStep, Reversed;
    if |data| > 0 {
      var init := data[..|data| - 1];
      BackUndoes(HecRun(s, init), data[|data| - 1]);
      BackRunUndoes(s, init);
    }
  }

  lemma {:induction false} RunUndoes(h: Word, data: Word)
    requires |h| == 8
    ensures Reversed(HecRun(Reversed(BackRun(h, data)), data)) == h
    decreases data
  {
    hide Back, HecStep;
    if |data| == 0 {
    } else {
      hide Reversed;
      var init, d := data[..|data| - 1], data[|data| - 1];
      RunUndoes(Back(h, d), init);
      ReversedTwice(HecRun(Reversed(BackRun(h, data)), init));
      StepUndoes(h, d);
    }
  }

  lemma ReversedTwice(w: Word)
    ensures Reversed(Reversed(w)) == w
  {
  }

  /** For fixed header data the check value and the UAP determine each other: the backward run gives the
      one UAP whose forward run is the received value. */
  lemma HecBijective(data: Word, hec: Word, uap: Word)
    requires |hec| == |uap| == 8
    ensures UapFromHec(data, hec) == uap <==> Hec(uap, data) == hec
  {
    hide Back, HecStep, HecRun, BackRun;
    BackRunUndoes(uap, data);
    RunUndoes(hec, data);
    ReversedTwice(uap);
    assert BitReverseByte(BackRun(hec, data)) == Reversed(BackRun(hec, data));
    ReversedTwice(BackRun(hec, data));
  }

  // ---- the payload check of section 7.1.2 ----

  /** One bit into the 16-bit register, as the program shifts it. */
  function CrcStep(reg: Word, bit: bool): (r: Word)
    requires |reg| == 16
    ensures |r| == 16
  {
    var a := reg[1..] + [reg[0] != bit];
    var b := a[10 := a[10] != a[15]];
    b[3 := b[3] != b[15]]
  }

  function CrcRun(reg: Word, data: Word): (r: Word)
    requires |reg| == 16
    ensures |r| == 16
  {
    if |data| == 0 then reg else CrcStep(CrcRun(reg, data[..|data| - 1]), data[|data| - 1])
  }

  /** The reversed UAP in the high byte. */
  function CrcSeed(uap: Word): (r: Word)
    requires |uap| == 8
    ensures |r| == 16
  {
    Zeros(8) + BitReverseByte(uap)
  }

  function PayloadCrc(data: Word, uap: Word): (r: Word)
    requires |uap| == 8
    ensures |r| == 16
  {
    CrcRun(CrcSeed(uap), data)
  }

  method ComputePayloadCrc(data: Word, bitCount: nat, uap: Word) returns (reg: Word)
    requires |uap| == 8 && bitCount <= |data|
    ensures reg == PayloadCrc(data[..bitCount], uap)
  {
    reg := Zeros(8) + BitReverseByte(uap);
    var i := 0;
    while i < bitCount
      invariant i <= bitCount && |reg| == 16 && reg == CrcRun(CrcSeed(uap), data[..i])
    {
      assert data[..i + 1][..i] == data[..i];
      reg := CrcStep(reg, data[i]);
      i := i + 1;
    }
  }

  /** Section 7.1.2: D^16 + D^12 + D^5 + 1, position 15 leaves. */
  function CcittStep(s: Word, d: bool): (r: Word)
    requires |s| == 16
    ensures |r| == 16
    ensures forall i :: 0 <= i < 16 ==>
      r[i] == if i == 0 then s[15] != d else if i == 5 || i == 12 then s[i - 1] != (s[15] != d) else s[i - 1]
  {
    var fb := s[15] != d;
    seq(16, i requires 0 <= i < 16 => if i == 0 then fb else if i == 5 || i == 12 then s[i - 1] != fb else s[i - 1])
  }

  /** The program's register is the standard's, read from the other end. */
  lemma CrcStepIsCcitt(s: Word, d: bool)
    requires |s| == 16
    ensures CrcStep(Reversed(s), d) == Reversed(CcittStep(s, d))
  {
  }

  function CrcBack(r: Word, bit: bool): (reg: Word)
    requires |r| == 16
    ensures |reg| == 16
  {
    var b := r[3 := r[3] != r[15]];
    var a := b[10 := b[10] != b[15]];
    [a[15] != bit] + a[..15]
  }

  lemma CrcStepBijective(reg: Word, r: Word, bit: bool)
    requires |reg| == |r| == 16
    ensures CrcStep(reg, bit) == r <==> reg == CrcBack(r, bit)
  {
  }

  /** The register that would have led to r. */
  function CrcOrigin(r: Word, data: Word): (reg: Word)
    requires |r| == 16
    ensures |reg| == 16
    decreases data
  {
    if |data| == 0 then r else CrcOrigin(CrcBack(r, data[|data| - 1]), data[..|data| - 1])
  }

  lemma {:induction false} CrcRunBijective(reg: Word, r: Word, data: Word)
    requires |reg| == |r| == 16
    ensures CrcRun(reg, data) == r <==> reg == CrcOrigin(r, data)
    decreases data
  {
    hide CrcStep, CrcBack;
    if |data| > 0 {
      var init, d := data[..|data| - 1], data[|data| - 1];
      CrcStepBijective(CrcRun(reg, init), r, d);
      CrcRunBijective(reg, CrcBack(r, d), init);
    }
  }

  /** For any payload and any received value at most one UAP makes the check pass, and whether one does
      shows in eight bits of the register run back to the start. */
  lemma PayloadPinsUap(data: Word, crc: Word, uap: Word)
    requires |crc| == 16 && |uap| == 8
    ensures var origin := CrcOrigin(crc, data);
            PayloadCrc(data, uap) == crc <==> origin[..8] == Zeros(8) && uap == BitReverseByte(origin[8..])
  {
    hide CrcRun, CrcOrigin, BitReverseByte;
    var origin := CrcOrigin(crc, data);
    CrcRunBijective(CrcSeed(uap), crc, data);
    ReverseByteTwice(uap);
    ReverseByteTwice(origin[8..]);
    assert origin == origin[..8] + origin[8..];
    assert CrcSeed(uap)[..8] == Zeros(8) && CrcSeed(uap)[8..] == BitReverseByte(uap);
  }

  lemma ReverseByteTwice(b: Word)
    requires |b| == 8
    ensures BitReverseByte(BitReverseByte(b)) == b
  {
  }
}
