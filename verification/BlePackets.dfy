/** What the scanner takes for a packet, said of the bits themselves (Bluetooth Core, Vol 6 Part B, section 2). */
module BlePackets {
  import opened Bits
  import opened BleScan
  import BleWhitening

  /** Bits from to to - 1 alternate. */
  predicate Alternating(b: Word, from: nat, to: nat) {
    to <= |b| && forall i :: from <= i < to - 1 ==> b[i] != b[i + 1]
  }

  /** Seven equal bits from position i on. */
  predicate SevenAt(b: Word, i: nat) {
    i + 7 <= |b| && b[i] == b[i + 1] == b[i + 2] == b[i + 3] == b[i + 4] == b[i + 5] == b[i + 6]
  }

  /** ... among the bits from to to - 1. */
  predicate SevenEqual(b: Word, from: nat, to: nat) {
    exists i: nat :: from <= i <= to - 7 && SevenAt(b, i)
  }

  /** LLID 00, or a bit above MD set. */
  predicate BadDataHeader(h: Word)
    requires |h| == 16
  {
    (!h[0] && !h[1]) || h[5] || h[6] || h[7]
  }

  /** The bits rule a packet out: the preamble does not alternate, or not into the access address, or the
      address of a data packet has seven equal bits in a row, or its dewhitened header is bad. */
  predicate RuledOut(channel: nat, b: Word) {
    || (|b| >= 8 && !Alternating(b, 0, 8))
    || (|b| >= 40 && !Alternating(b, 0, 9))
    || (|b| >= 40 && ToNat(b[8..40]) != 0x8E89BED6 && SevenEqual(b, 8, 40))
    || (|b| >= 56 && ToNat(b[8..40]) != 0x8E89BED6 && BadDataHeader(BleWhitening.Dewhitened(channel, b[40..56])))
  }

  /** Preamble, access address, and the two header bytes, payload and CRC the dewhitened header announces. */
  function PacketBits(channel: nat, b: Word): (n: nat)
    requires |b| >= 56
  {
    40 + 8 * (2 + ToNat(BleWhitening.Dewhitened(channel, b[40..56])[8..]) + 3)
  }

  const EVEN: Word := [false, true, false, true, false, true, false, true]
  const ODD: Word := [true, false, true, false, true, false, true, false]

  lemma Octets()
    ensures ToNat(EVEN) == 0xAA && ToNat(ODD) == 0x55
  {
  }

  lemma AlternatingIs(w: Word)
    requires |w| == 8 && Alternating(w, 0, 8)
    ensures w == if w[7] then EVEN else ODD
  {
    assert w[0] != w[1] && w[1] != w[2] && w[2] != w[3] && w[3] != w[4];
    assert w[4] != w[5] && w[5] != w[6] && w[6] != w[7];
  }

  lemma PreambleAlternates(w: Word)
    requires |w| == 8
    ensures IsPreamble(w) <==> Alternating(w, 0, 8)
    ensures IsPreamble(w) ==> w == (if w[7] then EVEN else ODD) && ToNat(w) == if w[7] then 0xAA else 0x55
  {
    hide ToNat;
    Octets();
    if IsPreamble(w) {
      ToNatInjective(w, if ToNat(w) == 0xAA then EVEN else ODD);
    } else if Alternating(w, 0, 8) {
      AlternatingIs(w);
    }
  }

  lemma AddressPasses(b: Word)
    requires |b| >= 40 && IsPreamble(b[..8])
    ensures AddressAccepted(b) <==>
              Alternating(b, 0, 9) && (ToNat(b[8..40]) != 0x8E89BED6 ==> !SevenEqual(b, 8, 40))
  {
    hide ToNat;
    var aa := b[8..40];
    PreambleAlternates(b[..8]);
    hide SevenAt, RunAt, Alternating;
    if SevenEqual(b, 8, 40) {
      var i: nat :| 8 <= i <= 33 && SevenAt(b, i);
      SevenIsRun(b, aa, i - 8);
    }
    if HasLongRun(aa) {
      var from: nat :| RunAt(aa, from, 7);
      RunIsWithin(aa, from);
      SevenIsRun(b, aa, from);
    }
  }

  lemma RunIsWithin(aa: Word, from: nat)
    requires |aa| == 32 && RunAt(aa, from, 7)
    ensures from + 7 <= 32
  {
  }

  lemma SevenIsRun(b: Word, aa: Word, from: nat)
    requires |b| >= 40 && aa == b[8..40] && from + 7 <= 32
    ensures SevenAt(b, 8 + from) <==> RunAt(aa, from, 7)
  {
    var w := aa[from..from + 7];
    forall k | 0 <= k < 7 ensures w[k] == aa[from + k] == b[8 + from + k] {
    }
    assert SevenAt(b, 8 + from) <==> w[0] == w[1] == w[2] == w[3] == w[4] == w[5] == w[6];
    if SevenAt(b, 8 + from) {
      forall i, j | from <= i < from + 7 && from <= j < from + 7 ensures aa[i] == aa[j] {
        assert w[i - from] == w[j - from];
      }
    }
    if RunAt(aa, from, 7) {
      assert forall k :: 0 <= k < 7 ==> aa[from + k] == w[k];
    }
  }

  /** A position is given up exactly when its bits rule a packet out, whatever else the stream holds; otherwise
      the packet is accepted as soon as all its bits are in, with its fields, whole for an advertising
      packet and by one bit for a data packet. */
  lemma JudgedByItsBits(channel: nat, b: Word)
    ensures var v := Judge(channel, b);
            && (v.Reject? <==> RuledOut(channel, b))
            && (v.Accept? <==> !RuledOut(channel, b) && |b| >= 56 && |b| >= PacketBits(channel, b))
            && (v.Accept? ==>
                  var n, adv := PacketBits(channel, b), ToNat(b[8..40]) == 0x8E89BED6;
                  && v.advance == (if adv then n else 1)
                  && v.frame == Frame(if adv then Advertising else Data, b[..8], b[8..40],
                                      if adv then 0x555555 else 0, false, b[40..n], (n - 40) / 8))
  {
    hide BleWhitening.Dewhitened, ToNat, HasLongRun, SevenEqual;
    if |b| >= 8 {
      PreambleAlternates(b[..8]);
    }
    if |b| >= 40 && IsPreamble(b[..8]) {
      AddressPasses(b);
    }
    if |b| >= 56 {
      ToNatBound(Header(channel, b)[8..]);
      assert Pow2(8) == 256;
    }
  }
}
