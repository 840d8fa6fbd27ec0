/** A whole BR/EDR packet behind its access code: header and payload are whitened as one stream by the register
    of section 7.2 of Vol 2 Part B, coded, and decoded again under the type code the header carries. */
module BredrPacket {
  import opened Bits
  import opened BredrFec
  import opened BredrHec
  import opened BredrHeader
  import opened BredrPayload
  import BredrRepetition
  import BredrWhitening
  import Distances

  /** Header and payload combined with the register's output from its load on. */
  function WhitenedPacket(h: Header, uap: Word, payload: Word, clk6: nat): (w: Word)
    requires h.Valid() && |uap| == 8 && clk6 < 64
    ensures |w| == 18 + |payload|
  {
    var clear := Checked(h, uap) + payload;
    Xor(clear, BredrWhitening.RegisterKey(clk6, 0, |clear|))
  }

  lemma Parts(h: Header, uap: Word, payload: Word, clk6: nat)
    requires h.Valid() && |uap| == 8 && clk6 < 64
    ensures var w := WhitenedPacket(h, uap, payload, clk6);
            && BredrRepetition.Repeated(w[..18]) == OnAir(h, uap, clk6)
            && w[18..] == BredrWhitening.Whitened(clk6, HEADER_OFFSET, payload)
  {
    hide BredrWhitening.TableKey, BredrWhitening.RegisterKey, Checked, BredrRepetition.Repeated, Xor;
    var b := Checked(h, uap);
    BredrWhitening.TableIsRegister(clk6, 0, |b + payload|);
    var w := WhitenedPacket(h, uap, payload, clk6);
    assert w == BredrWhitening.Whitened(clk6, 0, b + payload);
    hide BredrWhitening.Whitened;
    BredrWhitening.WhiteningSplits(clk6, 0, b, payload);
  }

  /** An uncoded packet: the header comes back and passes for the sender's UAP alone, and its type code leads to
      the payload sent, whatever was captured behind it. */
  lemma DhPacket(h: Header, uap: Word, trial: Word, payload: Word, more: Word, clk6: nat, capacity: nat)
    requires h.Valid() && |uap| == |trial| == 8 && clk6 < 64 && capacity > 0
    requires ToNat(h.kind) == 4 || ToNat(h.kind) == 9 || ToNat(h.kind) == 11 || ToNat(h.kind) == 15
    requires 0 < |payload| <= 8 * LongestBytes(ToNat(h.kind))
    ensures var w := WhitenedPacket(h, uap, payload, clk6);
            var d := DecodeHeader(BredrRepetition.Repeated(w[..18]), trial, clk6);
            var dst := AclPayload(w[18..] + more, ToNat(d.header.kind), clk6, capacity);
            && d.header == h && d.hecOk == (trial == uap)
            && dst != [] && Holds(dst, payload, capacity)
  {
    hide BredrWhitening.Whitened, AclPayload, Holds, DecodeHeader, OnAir, HecOkClean, BredrRepetition.Repeated;
    Parts(h, uap, payload, clk6);
    HeaderBack(h, uap, clk6, trial);
    LengthsAreStandard(ToNat(h.kind), [], clk6, capacity);
    SameClock(clk6);
    DhRoundTrip(payload, more, ToNat(h.kind), clk6, capacity);
  }

  lemma SameClock(clk6: nat)
    requires clk6 < 64
    ensures BredrWhitening.Clk6(clk6) == clk6
  {
  }

  lemma HeaderBack(h: Header, uap: Word, clk6: nat, trial: Word)
    requires h.Valid() && |uap| == |trial| == 8 && clk6 < 64
    ensures DecodeHeader(OnAir(h, uap, clk6), trial, clk6) == DecodedHeader(h, Hec(uap, HeaderData(h)), trial == uap)
  {
    hide DecodeHeader, HecOkClean, Hec, BredrWhitening.Whitened, Checked;
    var w := BredrWhitening.Whitened(clk6, 0, Checked(h, uap));
    SentIsNear(OnAir(h, uap, clk6), w);
    HeaderRoundTrip(h, uap, clk6, OnAir(h, uap, clk6), trial);
  }

  /** A packet of k blocks of ten bits, at most one bit of each 15 flipped on the way: the same, unless a block
      behind the payload is beyond repair. */
  lemma DmPacket(h: Header, uap: Word, trial: Word, payload: Word, k: nat, air: Word, clk6: nat, capacity: nat)
    requires h.Valid() && |uap| == |trial| == 8 && clk6 < 64 && capacity > 0
    requires ToNat(h.kind) == 3 || ToNat(h.kind) == 10 || ToNat(h.kind) == 14
    requires |payload| == 10 * k && 0 < k && 15 * k <= Captured(air, ToNat(h.kind))
    requires var sent := EncodePayload(WhitenedPacket(h, uap, payload, clk6)[18..], k);
             AllNear(air[..15 * k], sent, k)
    ensures var w := WhitenedPacket(h, uap, payload, clk6);
            var d := DecodeHeader(BredrRepetition.Repeated(w[..18]), trial, clk6);
            var dst := AclPayload(air, ToNat(d.header.kind), clk6, capacity);
            && d.header == h && d.hecOk == (trial == uap)
            && (dst == [] <==>
                  exists j :: k <= j < Captured(air, ToNat(h.kind)) / 15 && CorrectBlock(Block(air, j)).Bad?)
            && (dst != [] ==> Holds(dst, payload, capacity))
  {
    hide BredrWhitening.Whitened, AclPayload, Holds, DecodeHeader, OnAir, HecOkClean, BredrRepetition.Repeated,
      EncodePayload, CorrectBlock, Block, Decode, Captured, AllNear;
    Parts(h, uap, payload, clk6);
    HeaderBack(h, uap, clk6, trial);
    SameClock(clk6);
    DmRoundTrip(payload, k, air, ToNat(h.kind), clk6, capacity);
  }
}
