/** Decoding of a captured BLE frame, and the path from a transmitter through the framer to it. */
module BleCodec {
  import opened Bits
  import opened BleScan
  import opened BleWhitening
  import opened BlePackets
  import BleCrc

  /** The CRC travels with its highest coefficient first. */
  function ExtractCrc(bits: Word): (crc: Word)
    requires |bits| == 24
    ensures |crc| == 24
  {
    BitReverseByte(bits[16..]) + BitReverseByte(bits[8..16]) + BitReverseByte(bits[..8])
  }

  lemma ExtractCrcReverses(bits: Word)
    requires |bits| == 24
    ensures ExtractCrc(bits) == Reversed(bits)
  {
  }

  datatype Decoded = Refused | Packet(isAdv: bool, accessAddress: Word, header: Word, payload: Word,
                                      crc: Word, crcInit: Word, crcOk: bool)

  const MIN_FRAME_BYTES: nat := 2 + CRC_BYTES
  const MAX_FRAME_BYTES: nat := PDU_MAX_BYTES + CRC_BYTES

  function InitWord(v: nat): (w: Word)
    ensures |w| == 24
  {
    FromNat(v, 24)
  }

  function DecodeFrame(f: Frame, channel: nat): (d: Decoded)
    requires |f.rawPdu| == 8 * f.rawPduBytes
  {
    if f.rawPduBytes < MIN_FRAME_BYTES || f.rawPduBytes > MAX_FRAME_BYTES then Refused
    else
      var pduBytes := f.rawPduBytes - CRC_BYTES;
      var clear := Dewhitened(channel, f.rawPdu);
      var crc := ExtractCrc(clear[8 * pduBytes..]);
      var announced := PayloadLength(clear[..HEADER_BITS]);
      var length := if announced > pduBytes - 2 then pduBytes - 2 else announced;
      var pdu := clear[..8 * (2 + length)];
      if f.kind == Data then
        Packet(false, f.accessAddress, pdu[..HEADER_BITS], pdu[HEADER_BITS..], crc, InitWord(f.crcInit), f.crcOk)
      else
        var init := InitWord(CRC_INIT_ADV);
        Packet(true, f.accessAddress, pdu[..HEADER_BITS], pdu[HEADER_BITS..], crc, init,
               BleCrc.Crc(init, pdu) == crc)
  }

  /** Framer and codec agree: every frame the framer accepts is decoded, with the header the framer
      read and exactly as many payload bytes as the framer collected. */
  lemma FramerAndCodecAgree(channel: nat, b: Word)
    requires Judge(channel, b).Accept?
    ensures var f := Judge(channel, b).frame;
            && |f.rawPdu| == 8 * f.rawPduBytes
            && var d := DecodeFrame(f, channel);
            && d.Packet? && d.isAdv == (f.kind == Advertising)
            && d.header == Header(channel, b)
            && |d.payload| == 8 * PayloadLength(Header(channel, b))
            && 8 * f.rawPduBytes == |d.header| + |d.payload| + 24
  {
    hide BleCrc.Crc, Dewhitened, IsPreamble, AddressAccepted, HeaderAccepted;
    var f := Judge(channel, b).frame;
    assert f.rawPdu[..HEADER_BITS] == b[AA_END_BITS..AA_END_BITS + HEADER_BITS];
    PrefixCommutes(channel, f.rawPdu, HEADER_BITS);
    ToNatBound(Header(channel, b)[8..]);
    assert Pow2(8) == 256;
  }

  /** Any captured frame: its size must be that of a header, up to 256 payload bytes and a CRC.  The payload is as
      long as the header says, cut off at what was captured; the CRC is the last three bytes; an advertising
      frame is checked from 0x555555, a data frame keeps the verdict it came with. */
  lemma DecodedExactly(f: Frame, channel: nat)
    requires |f.rawPdu| == 8 * f.rawPduBytes
    ensures DecodeFrame(f, channel).Refused? <==> f.rawPduBytes < 5 || f.rawPduBytes > 261
    ensures 5 <= f.rawPduBytes <= 261 ==>
              var d, clear, n := DecodeFrame(f, channel), Dewhitened(channel, f.rawPdu), |f.rawPdu| - 24;
              && d.isAdv == (f.kind == Advertising) && d.accessAddress == f.accessAddress
              && d.header == clear[..16] && d.crc == Reversed(clear[n..])
              && d.payload == clear[16..16 + |d.payload|]
              && |d.payload| == (if 8 * ToNat(clear[8..16]) > n - 16 then n - 16 else 8 * ToNat(clear[8..16]))
              && d.crcInit == (if d.isAdv then FromNat(0x555555, 24) else FromNat(f.crcInit, 24))
              && d.crcOk == (if d.isAdv then BleCrc.Crc(FromNat(0x555555, 24), d.header + d.payload) == d.crc
                             else f.crcOk)
  {
    hide Dewhitened, BleCrc.Crc, ExtractCrc;
    if 5 <= f.rawPduBytes <= 261 {
      var clear, n := Dewhitened(channel, f.rawPdu), |f.rawPdu| - 24;
      ExtractCrcReverses(clear[n..]);
      ToNatBound(clear[8..16]);
      assert Pow2(8) == 256;
      assert clear[..16][8..] == clear[8..16];
      var d := DecodeFrame(f, channel);
      assert clear[..16 + |d.payload|] == d.header + d.payload;
    }
  }

  /** What a transmitter puts on the air. */
  function OnAir(channel: nat, preamble: Word, aa: Word, pdu: Word, init: Word): (air: Word)
    requires |init| == 24
  {
    preamble + aa + Dewhitened(channel, pdu + Reversed(BleCrc.Crc(init, pdu)))
  }

  /** A PDU: a two-byte header whose second byte counts the payload bytes that follow. */
  predicate IsPdu(pdu: Word) {
    |pdu| >= 16 && |pdu| == 16 + 8 * ToNat(pdu[8..16])
  }

  lemma OnAirFields(channel: nat, preamble: Word, aa: Word, pdu: Word, init: Word, more: Word)
    requires |preamble| == 8 && |aa| == 32 && |init| == 24 && IsPdu(pdu)
    ensures var air := OnAir(channel, preamble, aa, pdu, init) + more;
            && |OnAir(channel, preamble, aa, pdu, init)| == AA_END_BITS + |pdu| + 24
            && air[..8] == preamble && air[8..40] == aa
            && air[40..40 + |pdu| + 24] == Dewhitened(channel, pdu + Reversed(BleCrc.Crc(init, pdu)))
            && Header(channel, air) == pdu[..16] && TargetBits(pdu[..16]) == |pdu| + 24
  {
    hide BleCrc.Crc, Dewhitened;
    var clear := pdu + Reversed(BleCrc.Crc(init, pdu));
    var coded := Dewhitened(channel, clear);
    var air := OnAir(channel, preamble, aa, pdu, init) + more;
    assert air == preamble + aa + coded + more;
    assert air[40..56] == coded[..16];
    PrefixCommutes(channel, coded, 16);
    Involution(channel, clear);
    assert clear[..16] == pdu[..16] && pdu[..16][8..] == pdu[8..16];
    ToNatBound(pdu[8..16]);
    assert Pow2(8) == 256;
  }

  /** A transmitted advertising PDU is framed and decoded to the PDU and CRC sent; the CRC is good exactly when
      it was computed from the advertising CRCInit. */
  lemma AdvertisingRoundTrip(channel: nat, preamble: Word, aa: Word, pdu: Word, init: Word, more: Word)
    requires |preamble| == 8 && ToNat(preamble) == 0xAA && |aa| == 32 && ToNat(aa) == 0x8E89BED6
    requires |init| == 24 && IsPdu(pdu)
    ensures var air := OnAir(channel, preamble, aa, pdu, init);
            var v := Judge(channel, air + more);
            var adv := FromNat(0x555555, 24);
            && v.Accept? && v.advance == |air| && |v.frame.rawPdu| == 8 * v.frame.rawPduBytes
            && DecodeFrame(v.frame, channel)
               == Packet(true, aa, pdu[..16], pdu[16..], BleCrc.Crc(init, pdu), adv, init == adv)
  {
    hide BleCrc.Crc, Dewhitened, Header, TargetBits, HasLongRun, ToNat, FromNat, DecodeFrame, OnAir;
    var b := OnAir(channel, preamble, aa, pdu, init) + more;
    var adv := FromNat(0x555555, 24);
    OnAirFields(channel, preamble, aa, pdu, init, more);
    AdvertisingPasses(preamble, aa);
    assert Judge(channel, b).Accept?;
    DecodedFields(channel, preamble, aa, pdu, init, Judge(channel, b).frame);
    if init != adv && BleCrc.Crc(init, pdu) == BleCrc.Crc(adv, pdu) {
      BleCrc.InitUnique(init, adv, pdu);
    }
  }

  lemma AdvertisingPasses(preamble: Word, aa: Word)
    requires |preamble| == 8 && ToNat(preamble) == 0xAA && |aa| == 32 && ToNat(aa) == 0x8E89BED6
    ensures IsPreamble(preamble) && PreambleMatchesAa(preamble, aa)
  {
  }

  /** Any frame that carries the transmitted bits decodes to the PDU and CRC sent. */
  lemma DecodedFields(channel: nat, preamble: Word, aa: Word, pdu: Word, init: Word, f: Frame)
    requires |init| == 24 && IsPdu(pdu)
    requires f.accessAddress == aa && f.rawPdu == Dewhitened(channel, pdu + Reversed(BleCrc.Crc(init, pdu)))
    requires 8 * f.rawPduBytes == |pdu| + 24
    ensures var d := DecodeFrame(f, channel);
            && d.Packet? && d.isAdv == (f.kind == Advertising) && d.accessAddress == aa
            && d.header == pdu[..16] && d.payload == pdu[16..] && d.crc == BleCrc.Crc(init, pdu)
            && (d.isAdv ==> d.crcInit == InitWord(CRC_INIT_ADV))
            && (d.isAdv ==> d.crcOk == (BleCrc.Crc(InitWord(CRC_INIT_ADV), pdu) == BleCrc.Crc(init, pdu)))
  {
    hide BleCrc.Crc, Dewhitened, InitWord, ExtractCrc;
    var crc := BleCrc.Crc(init, pdu);
    var clear := pdu + Reversed(crc);
    Involution(channel, clear);
    assert Dewhitened(channel, f.rawPdu) == clear;
    ExtractCrcReverses(Reversed(crc));
    assert clear[|pdu|..] == Reversed(crc) && Reversed(Reversed(crc)) == crc;
    assert clear[..16] == pdu[..16] && pdu[..16][8..] == pdu[8..16] && clear[..|pdu|] == pdu;
    ToNatBound(pdu[8..16]);
    assert Pow2(8) == 256;
  }

  /** A transmitted data PDU is refused exactly when its preamble, address or header bits are not what they must
      be: alternating into the address, no seven equal address bits in a row, an LLID other than 00, and no bit
      set above MD.  Otherwise it is framed, stepped over by one bit, and decoded to the PDU and CRC sent. */
  lemma DataRoundTrip(channel: nat, preamble: Word, aa: Word, pdu: Word, init: Word, more: Word)
    requires |preamble| == 8 && |aa| == 32 && |init| == 24 && IsPdu(pdu) && ToNat(aa) != 0x8E89BED6
    ensures var v := Judge(channel, OnAir(channel, preamble, aa, pdu, init) + more);
            var good := Alternating(preamble + aa, 0, 9) && !SevenEqual(aa, 0, 32)
                        && (pdu[0] || pdu[1]) && !pdu[5] && !pdu[6] && !pdu[7];
            && (v.Reject? <==> !good)
            && (good ==>
                  && v.Accept? && v.advance == 1 && |v.frame.rawPdu| == 8 * v.frame.rawPduBytes
                  && v.frame.kind == Data && v.frame.preamble == preamble && v.frame.accessAddress == aa
                  && var d := DecodeFrame(v.frame, channel);
                  && d.Packet? && !d.isAdv && d.header == pdu[..16] && d.payload == pdu[16..]
                  && d.accessAddress == aa && d.crc == BleCrc.Crc(init, pdu))
  {
    hide BleCrc.Crc, Dewhitened, Judge, InitWord, ToNat, Alternating, SevenEqual, DecodeFrame, OnAir;
    var b := OnAir(channel, preamble, aa, pdu, init) + more;
    OnAirFields(channel, preamble, aa, pdu, init, more);
    JudgedByItsBits(channel, b);
    FrontBits(preamble, aa, b);
    SentLength(channel, b, pdu);
    if Judge(channel, b).Accept? {
      DecodedFields(channel, preamble, aa, pdu, init, Judge(channel, b).frame);
    }
  }

  lemma SentLength(channel: nat, b: Word, pdu: Word)
    requires |b| >= 56 && IsPdu(pdu) && Header(channel, b) == pdu[..16]
    ensures PacketBits(channel, b) == 40 + |pdu| + 24
  {
    assert pdu[..16][8..] == pdu[8..16];
  }

  lemma FrontBits(preamble: Word, aa: Word, b: Word)
    requires |preamble| == 8 && |aa| == 32 && |b| >= 40 && b[..8] == preamble && b[8..40] == aa
    ensures Alternating(b, 0, 9) <==> Alternating(preamble + aa, 0, 9)
    ensures Alternating(b, 0, 9) ==> Alternating(b, 0, 8)
    ensures SevenEqual(b, 8, 40) <==> SevenEqual(aa, 0, 32)
  {
    assert b[..40] == preamble + aa by {
      assert b[..40] == b[..8] + b[8..40];
    }
    assert forall i :: 0 <= i < 40 ==> b[i] == b[..40][i];
    forall i: nat | i <= 25 ensures SevenAt(b, 8 + i) == SevenAt(aa, i) {
      assert forall k :: i <= k < i + 7 ==> aa[k] == b[8 + k];
    }
    if SevenEqual(b, 8, 40) {
      var i: nat :| 8 <= i <= 33 && SevenAt(b, i);
      assert SevenAt(aa, i - 8);
    }
  }
}
