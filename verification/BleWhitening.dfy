/** Data whitening of the LE link layer (Bluetooth Core, Vol 6 Part B, section 3.2). */
module BleWhitening {
  import opened Bits

  /** The 7-bit register loaded for a channel: the six low channel bits, and a one above them. */
  function Seed(channel: nat): (l: Word)
    ensures |l| == 7 && l[6]
  {
    FromNat(channel, 6) + [true]
  }

  /** One clock: bit 0 leaves, and is fed back into positions 2 and 6. */
  function Step(l: Word): (r: Word)
    requires |l| == 7
    ensures |r| == 7
  {
    [l[1], l[2], l[3] != l[0], l[4], l[5], l[6], l[0]]
  }

  function After(l: Word, n: nat): (r: Word)
    requires |l| == 7
    ensures |r| == 7
    decreases n
  {
    if n == 0 then l else After(Step(l), n - 1)
  }

  function Stream(l: Word, n: nat): (k: Word)
    requires |l| == 7
    ensures |k| == n
    decreases n
  {
    if n == 0 then [] else [l[0]] + Stream(Step(l), n - 1)
  }

  /** What `ble_dewhiten` leaves in a buffer holding `data` on `channel`. */
  function Dewhitened(channel: nat, data: Word): (r: Word)
    ensures |r| == |data|
  {
    Xor(data, Stream(Seed(channel), |data|))
  }

  /** `now` is `was` with its first `at` bits combined with the key. */
  ghost predicate HalfDone(was: Word, now: Word, key: Word, at: nat) {
    && at <= |key| <= |was| == |now|
    && (forall i :: 0 <= i < at ==> now[i] == (was[i] != key[i]))
    && (forall i :: at <= i < |now| ==> now[i] == was[i])
  }

  lemma HalfDoneStep(was: Word, now: Word, key: Word, at: nat, bit: bool)
    requires HalfDone(was, now, key, at) && at < |key|
    requires bit == key[at]
    ensures HalfDone(was, now[at := now[at] != bit], key, at + 1)
  {
  }

  lemma NextRegister(l: Word, n: nat, i: nat)
    requires |l| == 7 && i < n
    ensures Stream(l, n)[i] == After(l, i)[0]
    ensures After(l, i + 1) == Step(After(l, i))
  {
    StreamAt(l, n, i);
    AfterPlus(l, i, 1);
    assert After(After(l, i), 1) == After(Step(After(l, i)), 0);
  }

  /** The in-place loop over bytes and, within each byte, bits in air order. */
  method Dewhiten(data: array<bool>, bytes: nat, channel: nat)
    requires 8 * bytes <= data.Length
    modifies data
    ensures data[..] == Dewhitened(channel, old(data[..8 * bytes])) + old(data[8 * bytes..])
  {
    var lfsr := Seed(channel);
    ghost var was, key := data[..], Stream(lfsr, 8 * bytes);
    var byteIdx := 0;
    while byteIdx < bytes
      invariant byteIdx <= bytes
      invariant lfsr == After(Seed(channel), 8 * byteIdx)
      invariant HalfDone(was, data[..], key, 8 * byteIdx)
    {
      var bitIdx := 0;
      while bitIdx < 8
        invariant bitIdx <= 8
        invariant lfsr == After(Seed(channel), 8 * byteIdx + bitIdx)
        invariant HalfDone(was, data[..], key, 8 * byteIdx + bitIdx)
      {
        ghost var now, at := data[..], 8 * byteIdx + bitIdx;
        NextRegister(Seed(channel), 8 * bytes, at);
        HalfDoneStep(was, now, key, at, lfsr[0]);
        data[8 * byteIdx + bitIdx] := data[8 * byteIdx + bitIdx] != lfsr[0];
        assert data[..] == now[at := now[at] != lfsr[0]];
        lfsr := Step(lfsr);
        bitIdx := bitIdx + 1;
      }
      byteIdx := byteIdx + 1;
    }
  }

  lemma {:induction false} StreamSplit(l: Word, m: nat, n: nat)
    requires |l| == 7
    ensures Stream(l, m + n) == Stream(l, m) + Stream(After(l, m), n)
    decreases m
  {
    if m > 0 {
      StreamSplit(Step(l), m - 1, n);
    }
  }

  /** Dewhitening is its own inverse. */
  lemma Involution(channel: nat, data: Word)
    ensures Dewhitened(channel, Dewhitened(channel, data)) == data
  {
  }

  /** Dewhitening a prefix alone gives the prefix of the dewhitened whole, so the framer, which
      dewhitens two header bytes, and the codec, which dewhitens the frame, read the same header. */
  lemma PrefixCommutes(channel: nat, data: Word, n: nat)
    requires n <= |data|
    ensures Dewhitened(channel, data[..n]) == Dewhitened(channel, data)[..n]
  {
    StreamSplit(Seed(channel), n, |data| - n);
  }

  lemma {:induction false} StreamAt(l: Word, n: nat, i: nat)
    requires |l| == 7 && i < n
    ensures Stream(l, n)[i] == After(l, i)[0]
    decreases n
  {
    if i > 0 {
      StreamAt(Step(l), n - 1, i - 1);
    }
  }

  lemma {:induction false} AfterPlus(l: Word, m: nat, n: nat)
    requires |l| == 7
    ensures After(l, m + n) == After(After(l, m), n)
    decreases m
  {
    if m > 0 {
      AfterPlus(Step(l), m - 1, n);
    }
  }

  /** The emitted sequence obeys the recurrence of the generator D^7 + D^4 + 1, whatever the channel. */
  lemma Recurrence(channel: nat, n: nat, i: nat)
    requires i + 7 < n
    ensures var k := Stream(Seed(channel), n); k[i + 7] == (k[i + 4] != k[i])
  {
    var l := Seed(channel);
    StreamAt(l, n, i);
    StreamAt(l, n, i + 4);
    StreamAt(l, n, i + 7);
    AfterPlus(l, i, 4);
    AfterPlus(l, i, 7);
    var r := After(l, i);
    assert After(r, 4) == Step(Step(Step(Step(r)))) by { Unroll(r); }
    assert After(r, 7) == Step(Step(Step(Step(Step(Step(Step(r))))))) by { Unroll(r); }
  }

  lemma Unroll(r: Word)
    requires |r| == 7
    ensures After(r, 4) == Step(Step(Step(Step(r))))
    ensures After(r, 7) == Step(Step(Step(After(r, 4))))
  {
    var s := Step(Step(Step(Step(r))));
    assert After(r, 4) == After(Step(r), 3) == After(Step(Step(r)), 2) == After(Step(Step(Step(r))), 1) == After(s, 0);
    AfterPlus(r, 4, 3);
    assert After(s, 3) == After(Step(s), 2) == After(Step(Step(s)), 1) == After(Step(Step(Step(s))), 0);
  }

  /** The register of section 3.2 as drawn: position 0 holds a one, positions 1 to 6 the channel index with its
      highest bit first; position 6 is the output, and is fed back into positions 0 and 4. */
  function Drawn(channel: nat, clocks: nat): (p: Word)
    ensures |p| == 7
  {
    if clocks == 0 then
      [true, channel / 32 % 2 == 1, channel / 16 % 2 == 1, channel / 8 % 2 == 1,
       channel / 4 % 2 == 1, channel / 2 % 2 == 1, channel % 2 == 1]
    else
      var p := Drawn(channel, clocks - 1);
      [p[6], p[0], p[1], p[2], p[3] != p[6], p[4], p[5]]
  }

  lemma Halves(c: nat)
    ensures c / 2 / 2 == c / 4 && c / 4 / 2 == c / 8 && c / 8 / 2 == c / 16 && c / 16 / 2 == c / 32
  {
  }

  lemma ThreeLow(c: nat, n: nat)
    requires n >= 3
    ensures FromNat(c, n) == [c % 2 == 1, c / 2 % 2 == 1, c / 4 % 2 == 1] + FromNat(c / 8, n - 3)
  {
    Halves(c);
    assert FromNat(c, n) == [c % 2 == 1] + FromNat(c / 2, n - 1);
    assert FromNat(c / 2, n - 1) == [c / 2 % 2 == 1] + FromNat(c / 4, n - 2);
    assert FromNat(c / 4, n - 2) == [c / 4 % 2 == 1] + FromNat(c / 8, n - 3);
  }

  lemma ReversedSeven(l: Word)
    requires |l| == 7
    ensures Reversed(l) == [l[6], l[5], l[4], l[3], l[2], l[1], l[0]]
  {
  }

  lemma SeedDrawn(channel: nat)
    ensures Reversed(Seed(channel)) == Drawn(channel, 0)
  {
    var d := channel / 8;
    ThreeLow(channel, 6);
    ThreeLow(d, 3);
    assert d / 2 == channel / 16 && d / 4 == channel / 32 by {
      Halves(channel);
      Halves(d);
    }
    hide FromNat;
    ReversedSeven(Seed(channel));
    assert FromNat(channel, 6) == ([channel % 2 == 1, channel / 2 % 2 == 1, channel / 4 % 2 == 1]
                                   + [d % 2 == 1, d / 2 % 2 == 1, d / 4 % 2 == 1]);
  }

  lemma DrawnStep(l: Word, p: Word)
    requires |l| == |p| == 7 && Reversed(l) == p
    ensures Reversed(Step(l)) == [p[6], p[0], p[1], p[2], p[3] != p[6], p[4], p[5]]
  {
    assert p[0] == l[6] && p[1] == l[5] && p[2] == l[4] && p[3] == l[3] && p[4] == l[2] && p[5] == l[1] && p[6] == l[0];
    ReversedSeven(Step(l));
  }

  lemma {:induction false} AfterDrawn(channel: nat, n: nat)
    ensures Reversed(After(Seed(channel), n)) == Drawn(channel, n)
  {
    hide Seed, Step;
    if n == 0 {
      SeedDrawn(channel);
    } else {
      AfterDrawn(channel, n - 1);
      NextRegister(Seed(channel), n, n - 1);
      DrawnStep(After(Seed(channel), n - 1), Drawn(channel, n - 1));
    }
  }

  lemma KeyIsDrawn(channel: nat, n: nat, i: nat)
    requires i < n
    ensures Stream(Seed(channel), n)[i] == Drawn(channel, i)[6]
  {
    StreamAt(Seed(channel), n, i);
    AfterDrawn(channel, i);
  }

  /** On every channel each bit is combined with what the drawn register puts out after as many clocks. */
  lemma DewhitenedAsDrawn(channel: nat, data: Word, i: nat)
    requires i < |data|
    ensures Dewhitened(channel, data)[i] == (data[i] != Drawn(channel, i)[6])
  {
    KeyIsDrawn(channel, |data|, i);
  }
}
