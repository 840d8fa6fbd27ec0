/** BR/EDR packet headers on air: header check, whitening, threefold repetition, and their decoding for a
    trial UAP and clock value. */
module BredrHeader {
  import opened Bits
  import opened Distances
  import opened BredrWhitening
  import opened BredrHec
  import opened BredrRepetition

  const HEADER_BITS: nat := 18
  const AIR_BITS: nat := 54

  datatype Header = Header(ltAddr: Word, kind: Word, flow: bool, arqn: bool, seqn: bool) {
    ghost predicate Valid() {
      |ltAddr| == 3 && |kind| == 4
    }
  }

  datatype DecodedHeader = DecodedHeader(header: Header, hec: Word, hecOk: bool)

  /** The ten header bits in air order. */
  function HeaderData(h: Header): (d: Word)
    requires h.Valid()
    ensures |d| == 10
  {
    h.ltAddr + h.kind + [h.flow, h.arqn, h.seqn]
  }

  function Fields(bits: Word): (h: Header)
    requires |bits| == HEADER_BITS
    ensures h.Valid()
  {
    Header(bits[..3], bits[3..7], bits[7], bits[8], bits[9])
  }

  /** In the air: logical transport address, type, flow, ARQN, SEQN, each lowest bit first, then the check. */
  lemma AirOrder(h: Header, uap: Word, i: nat)
    requires h.Valid() && |uap| == 8 && i < 18
    ensures Checked(h, uap)[i] ==
              if i < 3 then h.ltAddr[i]
              else if i < 7 then h.kind[i - 3]
              else if i == 7 then h.flow
              else if i == 8 then h.arqn
              else if i == 9 then h.seqn
              else Hec(uap, HeaderData(h))[i - 10]
  {
    hide Hec;
  }

  // ---- the receiver ----

  /** Majority bits of the repetition code, dewhitened; all zero when four or more bits were overruled. */
  function HeaderBits(raw: Word, clk: nat): (bits: Word)
    requires |raw| == AIR_BITS
    ensures |bits| == HEADER_BITS
  {
    if Overruled(raw, HEADER_BITS) >= 4 then Zeros(HEADER_BITS)
    else Whitened(Clk6(clk), 0, Majority(raw, HEADER_BITS))
  }

  method DecodeHeaderBits(raw: Word, clk: nat) returns (bits: Word)
    requires |raw| == AIR_BITS
    ensures bits == HeaderBits(raw, clk)
  {
    var decoded := FecDecode13(raw);
    if decoded.Refused? || |decoded.bits| != 18 || decoded.errors >= |decoded.bits| / 4 {
      return Zeros(18);
    }
    bits := XorWhitening(decoded.bits, clk, 0, 3);
    bits := bits[..18];
  }

  function DecodeHeader(raw: Word, uap: Word, clk: nat): (d: DecodedHeader)
    requires |raw| == AIR_BITS && |uap| == 8
  {
    var bits := HeaderBits(raw, clk);
    DecodedHeader(Fields(bits), bits[10..], UapFromHec(bits[..10], bits[10..]) == uap)
  }

  /** The check that drives clock recovery: no bit overruled, and the check value right. */
  predicate HecOkClean(raw: Word, uap: Word, clk: nat)
    requires |raw| == AIR_BITS && |uap| == 8
  {
    && Overruled(raw, HEADER_BITS) == 0
    && var bits := Whitened(Clk6(clk), 0, Majority(raw, HEADER_BITS));
       UapFromHec(bits[..10], bits[10..]) == uap
  }

  // ---- the transmitter ----

  function Checked(h: Header, uap: Word): (b: Word)
    requires h.Valid() && |uap| == 8
    ensures |b| == HEADER_BITS
  {
    HeaderData(h) + Hec(uap, HeaderData(h))
  }

  function OnAir(h: Header, uap: Word, clk6: nat): (raw: Word)
    requires h.Valid() && |uap| == 8 && clk6 < 64
    ensures |raw| == AIR_BITS
  {
    Repeated(Whitened(clk6, 0, Checked(h, uap)))
  }

  // ---- round trip ----

  lemma FieldsOfChecked(h: Header, uap: Word)
    requires h.Valid() && |uap| == 8
    ensures Fields(Checked(h, uap)) == h
    ensures Checked(h, uap)[..10] == HeaderData(h) && Checked(h, uap)[10..] == Hec(uap, HeaderData(h))
  {
    hide Hec;
    var b := Checked(h, uap);
    assert b[..3] == h.ltAddr && b[3..7] == h.kind;
  }

  lemma CheckedOfFields(bits: Word, uap: Word)
    requires |bits| == HEADER_BITS && |uap| == 8 && UapFromHec(bits[..10], bits[10..]) == uap
    ensures Checked(Fields(bits), uap) == bits
  {
    hide Hec, UapFromHec;
    assert HeaderData(Fields(bits)) == bits[..10];
    HecBijective(bits[..10], bits[10..], uap);
    assert bits == bits[..10] + bits[10..];
  }

  /** At most one flip in any triple and at most three in all: fields and check value come back, and the
      check accepts the sender's UAP and no other. */
  lemma HeaderRoundTrip(h: Header, uap: Word, clk6: nat, received: Word, trial: Word)
    requires h.Valid() && |uap| == |trial| == 8 && clk6 < 64 && |received| == AIR_BITS
    requires AllNear(received, Whitened(clk6, 0, Checked(h, uap)), HEADER_BITS)
    requires Distance(received, OnAir(h, uap, clk6)) <= 3
    ensures DecodeHeader(received, trial, clk6) == DecodedHeader(h, Hec(uap, HeaderData(h)), trial == uap)
    ensures HecOkClean(received, trial, clk6) <==> received == OnAir(h, uap, clk6) && trial == uap
  {
    hide Hec, UapFromHec, Distance, Repeated, Checked, Fields, Whitened, Majority, Overruled, AllNear;
    var sent := Whitened(clk6, 0, Checked(h, uap));
    Closest(received, sent);
    WhiteningInvolution(clk6, 0, Checked(h, uap));
    FieldsOfChecked(h, uap);
    HecBijective(HeaderData(h), Hec(uap, HeaderData(h)), trial);
    HecBijective(HeaderData(h), Hec(uap, HeaderData(h)), uap);
  }

  /** The clean check accepts exactly what some transmitter with this UAP and clock sends. */
  lemma CleanExact(raw: Word, uap: Word, clk6: nat)
    requires |raw| == AIR_BITS && |uap| == 8 && clk6 < 64
    ensures HecOkClean(raw, uap, clk6) <==> exists h: Header :: h.Valid() && raw == OnAir(h, uap, clk6)
  {
    hide Hec, UapFromHec, Distance, Repeated, Whitened, Majority, Overruled, AllNear;
    if HecOkClean(raw, uap, clk6) {
      var m := Majority(raw, HEADER_BITS);
      var bits := Whitened(clk6, 0, m);
      Closest(raw, m);
      CheckedOfFields(bits, uap);
      WhiteningInvolution(clk6, 0, m);
      assert raw == OnAir(Fields(bits), uap, clk6);
    }
    if h: Header :| h.Valid() && raw == OnAir(h, uap, clk6) {
      SentIsNear(raw, Whitened(clk6, 0, Checked(h, uap)));
      HeaderRoundTrip(h, uap, clk6, raw, uap);
    }
  }

  lemma SentIsNear(raw: Word, m: Word)
    requires raw == Repeated(m)
    ensures AllNear(raw, m, |m|) && Distance(raw, Repeated(m)) == 0
  {
  }

  /** Four or more overruled bits leave an all-zero header, which the check accepts for UAP zero alone. */
  lemma HeavyDamage(raw: Word, uap: Word, clk: nat)
    requires |raw| == AIR_BITS && |uap| == 8 && Overruled(raw, HEADER_BITS) >= 4
    ensures DecodeHeader(raw, uap, clk) == DecodedHeader(Fields(Zeros(HEADER_BITS)), Zeros(8), uap == Zeros(8))
  {
    hide Hec, UapFromHec, Overruled, Fields;
    assert Zeros(18)[..10] == Zeros(10) && Zeros(18)[10..] == Zeros(8);
    ZeroHeaderUap();
  }

  lemma ZeroHeaderUap()
    ensures UapFromHec(Zeros(10), Zeros(8)) == Zeros(8)
  {
    hide UapFromHec, HecRun;
    HecOfZeros(10);
    assert Reversed(Zeros(8)) == Zeros(8);
    HecBijective(Zeros(10), Zeros(8), Zeros(8));
  }

  lemma {:induction false} HecOfZeros(n: nat)
    ensures HecRun(Zeros(8), Zeros(n)) == Zeros(8)
  {
    if n > 0 {
      HecOfZeros(n - 1);
      assert Zeros(n)[..n - 1] == Zeros(n - 1);
      assert HecStep(Zeros(8), false) == Zeros(8);
    }
  }

  /** Trial clocks are told apart: a header that is not given up decodes differently under each of the 64. */
  lemma TrialClocksDiffer(raw: Word, c: nat, d: nat)
    requires |raw| == AIR_BITS && c < 64 && d < 64 && c != d && Overruled(raw, HEADER_BITS) < 4
    ensures HeaderBits(raw, c)[..7] != HeaderBits(raw, d)[..7]
  {
    hide Whitened, Majority, Overruled;
    ClocksDiffer(c, d, Majority(raw, HEADER_BITS));
  }
}
