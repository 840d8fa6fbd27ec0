/** A stream on which the frame queue overflows: a long data candidate whose payload carries nine
    empty data packets.  It is undecided until its last bit, which completes all ten at once. */
module BleOverflow {
  import opened Bits
  import opened BleScan
  import opened BlePackets
  import BleFramer
  import BleWhitening

  const CHANNEL: nat := 1
  const SHORT_BITS: nat := 80
  const SHORTS: nat := 9

  function Address(): (w: Word)
    ensures |w| == 32
    ensures forall i :: 0 <= i < 32 ==> w[i] == (i % 4 >= 2)
  {
    seq(32, i => i % 4 >= 2)
  }

  /** A data header with LLID 1 and the given length. */
  function DataHeader(length: nat): (h: Word)
    ensures |h| == HEADER_BITS
  {
    [true] + Zeros(7) + FromNat(length, 8)
  }

  /** What the channel carries of a packet up to its header. */
  function Lead(length: nat): (w: Word)
    ensures |w| == AA_END_BITS + HEADER_BITS
  {
    EVEN + Address() + BleWhitening.Dewhitened(CHANNEL, DataHeader(length))
  }

  /** n empty data packets back to back. */
  function Shorts(n: nat): (w: Word)
    ensures |w| == n * SHORT_BITS
  {
    if n == 0 then [] else Lead(0) + Zeros(24) + Shorts(n - 1)
  }

  /** The long candidate's payload and CRC, 87 + 3 bytes, are the nine short packets. */
  function Air(): (w: Word)
    ensures |w| == 56 + SHORTS * SHORT_BITS
  {
    Lead(87) + Shorts(SHORTS)
  }

  /** Two equal neighbours keep away every preamble that would contain both. */
  lemma Quiet(b: Word, j: nat)
    requires j + 1 < |b| && b[j] == b[j + 1]
    ensures forall i: nat :: i <= j < i + 7 ==> !PreambleAt(b, i)
  {
    hide IsPreamble;
    forall i: nat | i <= j < i + 7 && i + PREAMBLE_BITS <= |b| ensures !PreambleAt(b, i) {
      var w := b[i..i + PREAMBLE_BITS];
      assert w[j - i] == b[j] && w[j - i + 1] == b[j + 1];
      if IsPreamble(w) {
        PreambleAlternates(w);
        assert false;
      }
    }
  }

  lemma TwoClocks(l: Word)
    requires |l| == 7
    ensures BleWhitening.Stream(l, 2) == l[..2]
    ensures BleWhitening.After(l, 2) == [l[2], l[3] != l[0], l[4] != l[1], l[5], l[6], l[0], l[1]]
  {
    var a := BleWhitening.Step(l);
    assert BleWhitening.Stream(a, 1) == [a[0]];
    assert BleWhitening.After(l, 2) == BleWhitening.After(a, 1) == BleWhitening.After(BleWhitening.Step(a), 0);
  }

  /** Four clocks at once: the register left, and the key bits given out. */
  lemma KeyFour(l: Word, n: nat) returns (m: Word, k: Word)
    requires |l| == 7
    ensures m == [l[4] != l[1], l[5] != l[2], (l[6] != l[3]) != l[0], l[0], l[1], l[2], l[3] != l[0]]
    ensures k == [l[0], l[1], l[2], l[3] != l[0]] && BleWhitening.Stream(l, 4 + n) == k + BleWhitening.Stream(m, n)
  {
    hide BleWhitening.Stream, BleWhitening.After;
    var h := [l[2], l[3] != l[0], l[4] != l[1], l[5], l[6], l[0], l[1]];
    m := [h[2], h[3] != h[0], h[4] != h[1], h[5], h[6], h[0], h[1]];
    k := l[..2] + h[..2];
    TwoClocks(l);
    TwoClocks(h);
    BleWhitening.StreamSplit(l, 2, 2 + n);
    BleWhitening.StreamSplit(h, 2, n);
    assert l[..2] + (h[..2] + BleWhitening.Stream(m, n)) == k + BleWhitening.Stream(m, n);
  }

  /** Bits 5, 6, 9, 10 and 15 of the channel's key are 0. */
  lemma Key()
    ensures var k := BleWhitening.Stream(BleWhitening.Seed(CHANNEL), 16);
            !k[5] && !k[6] && !k[9] && !k[10] && !k[15]
  {
    hide BleWhitening.Stream, BleWhitening.After;
    var l := BleWhitening.Seed(CHANNEL);
    assert l == [true, false, false, false, false, false, true];
    var l4, k4 := KeyFour(l, 12);
    var l8, k8 := KeyFour(l4, 8);
    var l12, k12 := KeyFour(l8, 4);
    var l16, k16 := KeyFour(l12, 0);
  }

  /** The address is a data address without a long run. */
  lemma AddressPlausible()
    ensures ToNat(Address()) != ADVERTISING_AA && !HasLongRun(Address()) && PreambleMatchesAa(EVEN, Address())
  {
    hide ToNat;
    var a := Address();
    MultipleOfFour(a);
    forall from: nat | from + 7 <= 32 ensures !RunAt(a, from, 7) {
      assert a[from] != a[from + 2];
    }
    Octets();
  }

  lemma MultipleOfFour(w: Word)
    requires |w| > 1 && !w[0] && !w[1]
    ensures ToNat(w) % 4 == 0
  {
    assert w[1..][0] == w[1] && ToNat(w) == 2 * ToNat(w[1..]);
    assert ToNat(w[1..]) == 2 * ToNat(w[1..][1..]);
  }

  lemma Headers()
    ensures DataHeaderPlausible(DataHeader(0)) && TargetBits(DataHeader(0)) == 40
    ensures DataHeaderPlausible(DataHeader(87)) && TargetBits(DataHeader(87)) == 736
  {
    assert Pow2(8) == 256;
    ToNatFromNat(0, 8);
    ToNatFromNat(87, 8);
    assert DataHeader(0)[8..] == FromNat(0, 8);
    assert DataHeader(87)[8..] == FromNat(87, 8);
  }

  /** The lead of either packet starts a candidate that is decided when its announced bits are in. */
  lemma LeadJudged(length: nat, b: Word)
    requires length == 0 || length == 87
    requires |b| >= 56 && b[..56] == Lead(length)
    ensures var v := Judge(CHANNEL, b);
            if |b| < AA_END_BITS + TargetBits(DataHeader(length)) then v.Wait? else v.Accept? && v.advance == 1
  {
    hide TargetBits, HasLongRun, BleWhitening.Dewhitened, ToNat, DataHeader, Address;
    LeadFields(length, b);
    Octets();
    AddressPlausible();
    Headers();
  }

  lemma LeadFields(length: nat, b: Word)
    requires |b| >= 56 && b[..56] == Lead(length)
    ensures b[..8] == EVEN && b[8..40] == Address() && Header(CHANNEL, b) == DataHeader(length)
  {
    hide BleWhitening.Dewhitened, DataHeader, Address;
    var w := BleWhitening.Dewhitened(CHANNEL, DataHeader(length));
    assert b[..8] == b[..56][..8] == EVEN;
    assert b[8..40] == b[..56][8..40] == Address();
    assert b[40..56] == b[..56][40..] == w;
    BleWhitening.Involution(CHANNEL, DataHeader(length));
  }

  /** The address has equal neighbours at every even position. */
  lemma AddressPairs(length: nat, b: Word)
    requires |b| >= 56 && b[..56] == Lead(length)
    ensures forall j :: 8 <= j < 40 && j % 2 == 0 ==> b[j] == b[j + 1]
  {
    hide Lead, BleWhitening.Dewhitened, DataHeader;
    LeadFields(length, b);
    forall j | 8 <= j < 40 ensures b[j] == Address()[j - 8] {
      assert b[8..40][j - 8] == b[j];
    }
  }

  /** The header has equal neighbours at 45 and 49 and ends with a 0. */
  lemma HeaderPairs(length: nat, b: Word)
    requires length == 0 || length == 87
    requires |b| >= 56 && b[..56] == Lead(length)
    ensures b[45] == b[46] && b[49] == b[50] && !b[55]
  {
    hide BleWhitening.Stream, ToNat, FromNat, Address;
    LeadFields(length, b);
    var h := DataHeader(length);
    var k := BleWhitening.Stream(BleWhitening.Seed(CHANNEL), 16);
    var w := b[40..56];
    assert Header(CHANNEL, b) == Xor(w, k) == h;
    assert forall j :: 0 <= j < 16 ==> w[j] == (h[j] != k[j]);
    Key();
    LengthBits();
  }

  lemma LengthBits()
    ensures FromNat(0, 8) == Zeros(8)
    ensures FromNat(87, 8) == [true, true, true, false, true, false, true, false]
  {
  }

  /** No other preamble lies within a lead followed by a 0, except the one that starts a bit late. */
  lemma LeadQuiet(length: nat, b: Word)
    requires length == 0 || length == 87
    requires |b| > 56 && b[..56] == Lead(length) && !b[56]
    ensures forall i: nat :: 2 <= i < 56 ==> !PreambleAt(b, i)
  {
    hide Lead, PreambleAt;
    AddressPairs(length, b);
    HeaderPairs(length, b);
    forall i: nat | 2 <= i < 56 ensures !PreambleAt(b, i) {
      Quiet(b, if i < 8 then 8 else if i < 39 then i + i % 2 else if i < 46 then 45 else if i < 50 then 49 else 55);
    }
  }

  /** The late one is refused by its address, so scanning goes on behind the lead. */
  lemma LeadSkipped(length: nat, b: Word)
    requires length == 0 || length == 87
    requires |b| >= 63 && b[..56] == Lead(length) && !b[56]
    ensures Scan(CHANNEL, b[1..]) == Scan(CHANNEL, b[56..])
  {
    hide Scan, Judge, PreambleAt;
    LeadQuiet(length, b);
    var c := b[1..];
    assert c[..8][7] == Lead(length)[8] == false && c[8..40][0] == Lead(length)[9] == false by {
      assert c[7] == b[..56][8] && c[8] == b[..56][9];
    }
    if ToNat(c[..8]) == 0xAA {
      Octets();
      ToNatInjective(c[..8], EVEN);
    }
    BleFramer.AddressRejects(CHANNEL, c);
    assert c[1..] == b[2..];
    ScanSkipsFrom(CHANNEL, b, 2, 56);
  }

  lemma ShortsShape(n: nat)
    requires n > 0
    ensures var b := Shorts(n);
            && b[..56] == Lead(0) && b[80..] == Shorts(n - 1)
            && forall i :: 56 <= i <= 80 && i < |b| ==> !b[i]
  {
    hide Lead;
    var b := Shorts(n);
    assert b == Lead(0) + Zeros(24) + Shorts(n - 1);
    if n > 1 {
      assert b[80] == Shorts(n - 1)[0] == Lead(0)[0];
      StartsLow(0);
    }
  }

  lemma StartsLow(length: nat)
    ensures !Lead(length)[0]
  {
  }

  lemma ShortSkipped(n: nat)
    requires n > 1
    ensures Scan(CHANNEL, Shorts(n)[1..]) == Scan(CHANNEL, Shorts(n - 1))
  {
    hide Scan, Lead, PreambleAt, Shorts;
    var b := Shorts(n);
    ShortsShape(n);
    LeadSkipped(0, b);
    forall i: nat | 56 <= i < 80 ensures !PreambleAt(b, i) {
      Quiet(b, i);
    }
    ScanSkipsFrom(CHANNEL, b, 56, 80);
  }

  /** Back to back, every empty packet is found. */
  lemma {:induction false} ShortsFound(n: nat)
    ensures |Scan(CHANNEL, Shorts(n)).frames| >= n
  {
    hide Judge, Lead, Shorts;
    if n > 0 {
      ShortsShape(n);
      Headers();
      LeadJudged(0, Shorts(n));
      if n > 1 {
        ShortSkipped(n);
        ShortsFound(n - 1);
      }
    }
  }

  lemma AirShape()
    ensures var s := Air();
            && s[..56] == s[..775][..56] == Lead(87) && s[56..] == Shorts(SHORTS) && !s[56]
            && s[..775] + [s[775]] == s
  {
    hide Lead, Shorts;
    ShortsShape(SHORTS);
    StartsLow(0);
    assert Air()[56] == Shorts(SHORTS)[0] == Shorts(SHORTS)[..56][0];
  }

  /** The queue does overflow: up to the last bit the stream is one undecided candidate, and the last bit
      completes it and every packet inside it. */
  lemma QueueOverflows()
    ensures BleFramer.Overflowed(CHANNEL, Air())
  {
    hide Judge, Lead, Air, Shorts, BleFramer.Consumed, TargetBits;
    var s := Air();
    var p := s[..775];
    AirShape();
    Headers();
    LeadJudged(87, p);
    LeadJudged(87, s);
    LeadSkipped(87, s);
    ShortsFound(SHORTS);
    assert BleFramer.NewFrames(CHANNEL, p, s[775]) == Scan(CHANNEL, s).frames;
  }
}
