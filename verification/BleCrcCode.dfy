/** The CRC against its generator: polynomials over GF(2) as coefficient words, highest power first, which is
    the order in which message and CRC travel. */
module BleCrcCode {
  import opened Bits
  import BleCrc

  /** x^24 + x^10 + x^9 + x^6 + x^4 + x^3 + x + 1 (Bluetooth Core, Vol 6 Part B, section 3.1.1). */
  function Generator(): (g: Word)
    ensures |g| == 25
  {
    [true, false, false, false, false, false, false, false, false, false, false, false, false,
     false, true, true, false, false, true, false, true, true, false, true, true]
  }

  /** The polynomial q times the generator. */
  function Multiple(q: Word): (p: Word)
    ensures |p| == |q| + 24
  {
    if |q| == 0 then Zeros(24)
    else Xor(if q[0] then Generator() + Zeros(|q| - 1) else Zeros(|q| + 24), [false] + Multiple(q[1..]))
  }

  /** The message behind which 24 places are free, with the initial value added in at its front. */
  function Dividend(crc: Word, data: Word): (p: Word)
    requires |crc| == 24
    ensures |p| == |data| + 24
  {
    Xor(data + Zeros(24), Reversed(crc) + Zeros(|data|))
  }

  lemma {:induction false} NatBitOfZero(i: nat)
    ensures !BleCrc.NatBit(0, i)
  {
    if i > 0 {
      NatBitOfZero(i - 1);
    }
  }

  lemma NatBitAbove(v: nat, i: nat)
    ensures BleCrc.NatBit(v, i + 4) == BleCrc.NatBit(v / 16, i)
  {
    assert BleCrc.NatBit(v, i + 4) == BleCrc.NatBit(v / 2, i + 3) == BleCrc.NatBit(v / 4, i + 2)
        == BleCrc.NatBit(v / 8, i + 1);
  }

  /** The register's taps are the generator's terms. */
  lemma Taps(i: nat)
    requires i < 24
    ensures BleCrc.Tap(i) <==> Generator()[24 - i]
  {
    if i < 8 {
      assert BleCrc.Tap(0) && BleCrc.Tap(1) && !BleCrc.Tap(2) && BleCrc.Tap(3) && BleCrc.Tap(4);
      assert !BleCrc.Tap(5) && BleCrc.Tap(6) && !BleCrc.Tap(7);
    } else {
      NatBitAbove(BleCrc.POLYNOMIAL, i - 4);
      NatBitAbove(0x65, i - 8);
      assert !BleCrc.NatBit(6, 0) && BleCrc.NatBit(6, 1) && BleCrc.NatBit(6, 2);
      if i > 10 {
        assert BleCrc.NatBit(6, i - 8) == BleCrc.NatBit(3, i - 9) == BleCrc.NatBit(1, i - 10);
        NatBitOfZero(i - 11);
      }
    }
  }

  lemma DividendAt(crc: Word, data: Word, i: nat)
    requires |crc| == 24 && i < |data| + 24
    ensures Dividend(crc, data)[i] == ((i < |data| && data[i]) != (i < 24 && crc[23 - i]))
  {
  }

  function Subtracted(fb: bool, n: nat): (g: Word)
    ensures |g| == n + 24
    ensures forall i :: 0 <= i < n + 24 ==> g[i] == (fb && i < 25 && Generator()[i])
  {
    if fb && n > 0 then Generator() + Zeros(n - 1)
    else if fb then Generator()[..24]
    else Zeros(n + 24)
  }

  /** One message bit: the dividend loses its first place, after the generator was subtracted if that place was
      set. */
  lemma DividendStep(crc: Word, data: Word)
    requires |crc| == 24 && |data| > 0
    ensures Dividend(crc, data)
         == Xor(Subtracted(crc[23] != data[0], |data|), [false] + Dividend(BleCrc.Step(crc, data[0]), data[1..]))
  {
    hide BleCrc.Tap, Generator, Dividend, Subtracted;
    GeneratorTop();
    var next := BleCrc.Step(crc, data[0]);
    var g, rest := Subtracted(crc[23] != data[0], |data|), Dividend(next, data[1..]);
    forall i | 0 <= i < |data| + 24 ensures Dividend(crc, data)[i] == (g[i] != ([false] + rest)[i]) {
      DividendAt(crc, data, i);
      if i > 0 {
        DividendAt(next, data[1..], i - 1);
        if i <= 24 {
          Taps(24 - i);
        }
      }
    }
  }

  lemma GeneratorTop()
    ensures Generator()[0]
  {
  }

  /** For every message and initial value, the remainder the register ends with makes the message divisible:
      message, initial value and CRC together are a multiple of the generator. */
  lemma {:induction false} CrcIsRemainder(crc: Word, data: Word) returns (q: Word)
    requires |crc| == 24
    ensures |q| == |data|
    ensures Dividend(crc, data) == Xor(Multiple(q), Zeros(|data|) + Reversed(BleCrc.Crc(crc, data)))
    decreases |data|
  {
    hide Dividend, Multiple, Subtracted, BleCrc.Step;
    if |data| == 0 {
      q := [];
      NothingDivided(crc);
    } else {
      var next := BleCrc.Step(crc, data[0]);
      var p := CrcIsRemainder(next, data[1..]);
      q := [crc[23] != data[0]] + p;
      DividendStep(crc, data);
      MultipleStep(q, p);
      AddBehind(Subtracted(q[0], |data|), Multiple(p), Reversed(BleCrc.Crc(crc, data)), |data|);
    }
  }

  lemma NothingDivided(crc: Word)
    requires |crc| == 24
    ensures Dividend(crc, []) == Xor(Multiple([]), Zeros(0) + Reversed(crc))
  {
    assert Dividend(crc, []) == Reversed(crc);
  }

  lemma MultipleStep(q: Word, p: Word)
    requires |q| > 0 && q[1..] == p
    ensures Multiple(q) == Xor(Subtracted(q[0], |q|), [false] + Multiple(p))
  {
    hide Generator;
  }

  lemma AddBehind(g: Word, m: Word, r: Word, n: nat)
    requires n > 0 && |g| == n + 24 && |m| == n + 23 && |r| == 24
    ensures Xor(g, [false] + Xor(m, Zeros(n - 1) + r)) == Xor(Xor(g, [false] + m), Zeros(n) + r)
  {
    assert [false] + Xor(m, Zeros(n - 1) + r) == Xor([false] + m, Zeros(n) + r);
    XorAssociates(g, [false] + m, Zeros(n) + r);
  }

  /** From a zero register a message followed by its CRC, first bit the highest coefficient, is a multiple of the
      generator. */
  lemma CodewordDivisible(data: Word) returns (q: Word)
    ensures |q| == |data| && data + Reversed(BleCrc.Crc(Zeros(24), data)) == Multiple(q)
  {
    q := CrcIsRemainder(Zeros(24), data);
    hide Multiple;
    var n, r := |data|, Reversed(BleCrc.Crc(Zeros(24), data));
    XorCancels(Multiple(q), Zeros(n) + r);
    ZeroDividend(data, r);
  }

  lemma ZeroDividend(data: Word, r: Word)
    requires |r| == 24
    ensures Xor(Dividend(Zeros(24), data), Zeros(|data|) + r) == data + r
  {
    assert Dividend(Zeros(24), data) == data + Zeros(24);
  }
}
