/** What the BLE framer is meant to extract from a demodulated bit stream, stated on the whole
    stream at once: a scanner that tries every position from left to right. */
module BleScan {
  import opened Bits
  import BleWhitening

  const PREAMBLE_BITS: nat := 8
  const AA_END_BITS: nat := 40
  const HEADER_BITS: nat := 16
  const PDU_MAX_BYTES: nat := 258
  const CRC_BYTES: nat := 3
  const CANDIDATE_MAX_BITS: nat := AA_END_BITS + (PDU_MAX_BYTES + CRC_BYTES) * 8
  const CRC_INIT_ADV: nat := 0x555555
  const ADVERTISING_AA: nat := 0x8E89BED6

  datatype FrameKind = Advertising | Data

  /** A captured frame.  `rawPdu` holds the still-whitened PDU and CRC bits in air order. */
  datatype Frame = Frame(kind: FrameKind, preamble: Word, accessAddress: Word, crcInit: nat,
                         crcOk: bool, rawPdu: Word, rawPduBytes: nat)

  predicate IsPreamble(w: Word) {
    |w| == PREAMBLE_BITS && (ToNat(w) == 0x55 || ToNat(w) == 0xAA)
  }

  predicate PreambleAt(b: Word, i: nat) {
    i + PREAMBLE_BITS <= |b| && IsPreamble(b[i..i + PREAMBLE_BITS])
  }

  /** The last preamble bit and the first access-address bit differ (Vol 6 Part B, 2.1.1). */
  predicate PreambleMatchesAa(preamble: Word, aa: Word)
    requires |aa| == 32
  {
    ToNat(preamble) == if aa[0] then 0x55 else 0xAA
  }

  /** All bits of w in [from, to) are equal. */
  ghost predicate IsRun(w: Word, from: nat, to: nat)
    requires from <= to <= |w|
  {
    forall i, j :: from <= i < to && from <= j < to ==> w[i] == w[j]
  }

  /** A run of n bits starts at `from`. */
  ghost predicate RunAt(w: Word, from: nat, n: nat) {
    from + n <= |w| && IsRun(w, from, from + n)
  }

  /** Some seven consecutive bits are equal, which rule 2.1.2 of Vol 6 Part B forbids in a data
      access address.  The all-zero and all-one addresses are covered. */
  ghost predicate HasLongRun(aa: Word) {
    exists from: nat :: RunAt(aa, from, 7)
  }

  /** Dewhitened data header: LLID not the reserved 00, bits 5 to 7 zero. */
  predicate DataHeaderPlausible(header: Word)
    requires |header| == HEADER_BITS
  {
    (header[0] || header[1]) && !header[5] && !header[6] && !header[7]
  }

  function PayloadLength(header: Word): (n: nat)
    requires |header| == HEADER_BITS
  {
    var length := ToNat(header[8..]);
    if length > PDU_MAX_BYTES - 2 then PDU_MAX_BYTES - 2 else length
  }

  /** Bits of PDU and CRC announced by a dewhitened header. */
  function TargetBits(header: Word): (n: nat)
    requires |header| == HEADER_BITS
    ensures 40 <= n <= 2080
  {
    ToNatBound(header[8..]);
    assert Pow2(8) == 256;
    (2 + PayloadLength(header) + CRC_BYTES) * 8
  }

  /** The local checks a candidate must pass once its access address is in. */
  ghost predicate AddressAccepted(b: Word)
    requires |b| >= AA_END_BITS
  {
    var aa := b[PREAMBLE_BITS..AA_END_BITS];
    PreambleMatchesAa(b[..PREAMBLE_BITS], aa) && (ToNat(aa) == ADVERTISING_AA || !HasLongRun(aa))
  }

  predicate IsData(b: Word)
    requires |b| >= AA_END_BITS
  {
    ToNat(b[PREAMBLE_BITS..AA_END_BITS]) != ADVERTISING_AA
  }

  function Header(channel: nat, b: Word): (h: Word)
    requires |b| >= AA_END_BITS + HEADER_BITS
    ensures |h| == HEADER_BITS
  {
    BleWhitening.Dewhitened(channel, b[AA_END_BITS..AA_END_BITS + HEADER_BITS])
  }

  ghost predicate HeaderAccepted(channel: nat, b: Word)
    requires |b| >= AA_END_BITS + HEADER_BITS
  {
    IsData(b) ==> DataHeaderPlausible(Header(channel, b))
  }

  function CandidateFrame(b: Word, target: nat): (f: Frame)
    requires |b| >= AA_END_BITS + target
  {
    var data := IsData(b);
    Frame(if data then Data else Advertising, b[..PREAMBLE_BITS], b[PREAMBLE_BITS..AA_END_BITS],
          if data then 0 else CRC_INIT_ADV, false, b[AA_END_BITS..AA_END_BITS + target], target / 8)
  }

  /** The verdict on the candidate at the front of b: not enough bits to tell, no packet here, or a
      packet and how many bits to move on by.  An advertising packet is consumed whole, a data packet
      (whose CRC is not known yet) is only stepped over by one bit. */
  datatype Verdict = Wait | Reject | Accept(frame: Frame, advance: nat)

  ghost function Judge(channel: nat, b: Word): (v: Verdict)
    ensures v.Accept? ==> 1 <= v.advance <= |b|
    ensures v.Reject? ==> 1 <= |b|
  {
    if |b| < PREAMBLE_BITS then Wait
    else if !IsPreamble(b[..PREAMBLE_BITS]) then Reject
    else if |b| < AA_END_BITS then Wait
    else if !AddressAccepted(b) then Reject
    else if |b| < AA_END_BITS + HEADER_BITS then Wait
    else if !HeaderAccepted(channel, b) then Reject
    else
      var target := TargetBits(Header(channel, b));
      if |b| < AA_END_BITS + target then Wait
      else Accept(CandidateFrame(b, target), if IsData(b) then 1 else AA_END_BITS + target)
  }

  /** Frames found, and the undecided tail. */
  datatype Scanned = Scanned(frames: seq<Frame>, rest: Word)

  ghost function Scan(channel: nat, s: Word): (r: Scanned)
    decreases |s|
  {
    match Judge(channel, s)
    case Wait => Scanned([], s)
    case Reject => Scan(channel, s[1..])
    case Accept(f, n) =>
      var r := Scan(channel, s[n..]);
      Scanned([f] + r.frames, r.rest)
  }

  /** A verdict other than Wait does not change when more bits arrive. */
  lemma JudgeStable(channel: nat, b: Word, more: Word)
    requires !Judge(channel, b).Wait?
    ensures Judge(channel, b + more) == Judge(channel, b)
  {
    hide BleWhitening.Dewhitened, TargetBits;
    var c := b + more;
    assert c[..PREAMBLE_BITS] == b[..PREAMBLE_BITS];
    if |b| >= AA_END_BITS {
      assert c[PREAMBLE_BITS..AA_END_BITS] == b[PREAMBLE_BITS..AA_END_BITS];
    }
    if |b| >= AA_END_BITS + HEADER_BITS {
      assert c[AA_END_BITS..AA_END_BITS + HEADER_BITS] == b[AA_END_BITS..AA_END_BITS + HEADER_BITS];
      var target := TargetBits(Header(channel, b));
      if |b| >= AA_END_BITS + target {
        assert c[AA_END_BITS..AA_END_BITS + target] == b[AA_END_BITS..AA_END_BITS + target];
      }
    }
  }

  /** Scanning may be resumed: the frames of s + t are those of s followed by those found when the
      undecided tail of s is extended by t. */
  lemma {:induction false} ScanExtends(channel: nat, s: Word, t: Word)
    ensures var r := Scan(channel, s);
            var q := Scan(channel, r.rest + t);
            Scan(channel, s + t) == Scanned(r.frames + q.frames, q.rest)
    decreases |s|
  {
    hide Judge;
    var v := Judge(channel, s);
    if !v.Wait? {
      JudgeStable(channel, s, t);
      var n := if v.Reject? then 1 else v.advance;
      assert (s + t)[n..] == s[n..] + t;
      ScanExtends(channel, s[n..], t);
    }
  }

  /** Positions that carry no preamble can be skipped. */
  lemma {:induction false} ScanSkips(channel: nat, b: Word, k: nat)
    requires k <= |b|
    requires forall i: nat :: i < k ==> !PreambleAt(b, i)
    requires k + PREAMBLE_BITS - 1 <= |b| || k == 0
    ensures Scan(channel, b) == Scan(channel, b[k..])
    decreases k
  {
    hide BleWhitening.Dewhitened, TargetBits, AddressAccepted, HeaderAccepted;
    if k == 0 {
      assert b[0..] == b;
    } else {
      assert !PreambleAt(b, 0);
      var c := b[1..];
      forall i: nat | i < k - 1 ensures !PreambleAt(c, i) {
        assert !PreambleAt(b, i + 1);
        if i + PREAMBLE_BITS <= |c| {
          assert c[i..i + PREAMBLE_BITS] == b[i + 1..i + 1 + PREAMBLE_BITS];
        }
      }
      ScanSkips(channel, c, k - 1);
      assert c[k - 1..] == b[k..];
    }
  }

  lemma ScanSkipsFrom(channel: nat, b: Word, from: nat, to: nat)
    requires from <= to && to + PREAMBLE_BITS - 1 <= |b|
    requires forall i: nat :: from <= i < to ==> !PreambleAt(b, i)
    ensures Scan(channel, b[from..]) == Scan(channel, b[to..])
  {
    var c := b[from..];
    forall i: nat | i < to - from ensures !PreambleAt(c, i) {
      assert !PreambleAt(b, i + from);
      if i + PREAMBLE_BITS <= |c| {
        assert c[i..i + PREAMBLE_BITS] == b[i + from..i + from + PREAMBLE_BITS];
      }
    }
    ScanSkips(channel, c, to - from);
    assert c[to - from..] == b[to..];
  }

  /** The undecided tail is the end of the stream. */
  lemma {:induction false} RestIsSuffix(channel: nat, s: Word)
    ensures var r := Scan(channel, s).rest; |r| <= |s| && r == s[|s| - |r|..]
    decreases |s|
  {
    hide Judge;
    var v := Judge(channel, s);
    if !v.Wait? {
      var n := if v.Reject? then 1 else v.advance;
      RestIsSuffix(channel, s[n..]);
      var k := |s[n..]| - |Scan(channel, s[n..]).rest|;
      assert s[n..][k..] == s[n + k..];
    }
  }

  /** An undecided tail is always shorter than the longest candidate. */
  lemma WaitIsBounded(channel: nat, b: Word)
    requires Judge(channel, b).Wait?
    ensures |b| < AA_END_BITS + 2080 < CANDIDATE_MAX_BITS
  {
  }
}
