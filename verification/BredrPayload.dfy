/** ACL payloads of BR/EDR: error correction where the packet type has it, then dewhitening behind the
    eighteen header bits. */
module BredrPayload {
  import opened Bits
  import opened Distances
  import opened BredrFec
  import opened BredrWhitening

  const HEADER_OFFSET: nat := 18

  /** The longest air payload of each ACL packet type. */
  function OnAirBits(kind: nat): (n: nat)
    ensures n <= 2745
  {
    match kind % 16
    case 3 => 240 case 4 => 240 case 9 => 240 case 10 => 1500 case 11 => 1496 case 14 => 2745 case 15 => 2744
    case _ => 0
  }

  /** DM1, DM3 and DM5. */
  predicate IsDm(kind: nat) {
    kind % 16 == 3 || kind % 16 == 10 || kind % 16 == 14
  }

  /** DH1, AUX1, DH3 and DH5. */
  predicate IsDh(kind: nat) {
    kind % 16 == 4 || kind % 16 == 9 || kind % 16 == 11 || kind % 16 == 15
  }

  function Captured(air: Word, kind: nat): (n: nat)
    ensures n <= |air|
  {
    if |air| < OnAirBits(kind) then |air| else OnAirBits(kind)
  }

  /** Dewhitened bits in whole bytes, cut off at the capacity. */
  function InBytes(src: Word, clk: nat, capacity: nat): (dst: Word) {
    var needed := (|src| + 7) / 8;
    var bytes := if needed > capacity then capacity else needed;
    var kept := if |src| <= 8 * bytes then src else src[..8 * bytes];
    Padded(Whitened(Clk6(clk), HEADER_OFFSET, kept), 8 * bytes)
  }

  /** Payload bytes, or nothing when the type has none, or a block is beyond repair. */
  function AclPayload(air: Word, kind: nat, clk: nat, capacity: nat): (dst: Word) {
    if capacity == 0 then []
    else if IsDm(kind) then
      match Decode(air, Captured(air, kind) / BLOCK)
      case Failed => []
      case Decoded(bits, _) => InBytes(bits, clk, capacity)
    else if IsDh(kind) then InBytes(air[..Captured(air, kind)], clk, capacity)
    else []
  }

  method DecodeAclPayload(air: Word, kind: nat, clk: nat, capacity: nat) returns (dst: Word)
    ensures dst == AclPayload(air, kind, clk, capacity)
  {
    hide Decode, Whitened, Padded, OnAirBits;
    if capacity == 0 || (!IsDm(kind) && !IsDh(kind)) {
      return [];
    }
    var n := Captured(air, kind);
    if IsDm(kind) {
      n := n - n % 15;
      PrefixDecodes(air, n, n / 15);
      if n == 0 {
        NothingDecodes(air, clk, capacity);
        return [];
      }
      var corrected := FecDecode23(air[..n]);
      if corrected.Failed? {
        return [];
      }
      dst := XorWhitening(corrected.bits, clk, HEADER_OFFSET, capacity);
    } else {
      dst := XorWhitening(air[..n], clk, HEADER_OFFSET, capacity);
    }
  }

  lemma NothingDecodes(air: Word, clk: nat, capacity: nat)
    ensures Decode(air, 0) == Decoded([], 0) && InBytes([], clk, capacity) == []
  {
  }

  /** The first n blocks do not depend on what follows them. */
  lemma {:induction false} PrefixDecodes(input: Word, t: nat, n: nat)
    requires BLOCK * n <= t <= |input|
    ensures Decode(input[..t], n) == Decode(input, n)
  {
    hide CorrectBlock;
    if n > 0 {
      PrefixDecodes(input, t, n - 1);
      assert Block(input[..t], n - 1) == Block(input, n - 1);
    }
  }

  /** Decoding more blocks extends the bits of fewer. */
  lemma {:induction false} MoreBlocks(input: Word, k: nat, n: nat)
    requires k <= n && BLOCK * n <= |input| && Decode(input, n).Decoded?
    ensures Decode(input, k).Decoded? && Decode(input, n).bits[..INFO * k] == Decode(input, k).bits
  {
    hide CorrectBlock, Block;
    if k < n {
      MoreBlocks(input, k, n - 1);
      var a, b := Decode(input, n - 1).bits, Decode(input, n).bits;
      assert b[..INFO * (n - 1)] == a;
      assert b[..INFO * k] == a[..INFO * k];
    }
  }

  /** The capture starts with the payload's k blocks, at most one bit of each flipped. */
  ghost predicate Arrived(payload: Word, k: nat, air: Word, clk: nat)
    requires |payload| == INFO * k
  {
    var sent := EncodePayload(Whitened(Clk6(clk), HEADER_OFFSET, payload), k);
    BLOCK * k <= |air| && AllNear(air[..BLOCK * k], sent, k)
  }

  /** The bytes the payload occupies, as far as the capacity goes, hold the payload. */
  predicate Holds(dst: Word, payload: Word, capacity: nat) {
    && |dst| <= 8 * capacity && (|dst| >= |payload| || |dst| == 8 * capacity)
    && forall i :: 0 <= i < |dst| && i < |payload| ==> dst[i] == payload[i]
  }

  /** A DM payload of k blocks, each with at most one flip, in a capture of n blocks: when every block behind
      the payload happens to be correctable too, the payload comes back (followed by what those blocks hold);
      when one of them is not, nothing comes back, however clean the payload itself was. */
  lemma DmRoundTrip(payload: Word, k: nat, air: Word, kind: nat, clk: nat, capacity: nat)
    requires kind % 16 == 3 || kind % 16 == 10 || kind % 16 == 14
    requires |payload| == INFO * k && 0 < k <= Captured(air, kind) / BLOCK && capacity > 0
    requires Arrived(payload, k, air, clk)
    ensures var n := Captured(air, kind) / BLOCK;
            var dst := AclPayload(air, kind, clk, capacity);
            && (Decode(air, n).Failed? <==> dst == [])
            && (dst == [] <==> exists j :: k <= j < n && CorrectBlock(Block(air, j)).Bad?)
            && (dst != [] ==> Holds(dst, payload, capacity))
            && (dst != [] ==> |dst| == 8 * (if (10 * n + 7) / 8 > capacity then capacity else (10 * n + 7) / 8))
  {
    hide Whitened, EncodePayload, CorrectBlock, Block, Decode, OnAirBits, Holds;
    var n := Captured(air, kind) / BLOCK;
    var white := Whitened(Clk6(clk), HEADER_OFFSET, payload);
    FecRoundTrip(white, k, air[..BLOCK * k]);
    PrefixDecodes(air, BLOCK * k, k);
    if Decode(air, n).Failed? {
      var _ := FirstBad(air, k, n);
    } else {
      forall j | k <= j < n ensures !CorrectBlock(Block(air, j)).Bad? {
        if CorrectBlock(Block(air, j)).Bad? {
          BadFails(air, j, n);
        }
      }
      MoreBlocks(air, k, n);
      Unwhitened(Decode(air, n).bits, payload, clk, capacity);
    }
  }

  lemma {:induction false} FirstBad(input: Word, k: nat, n: nat) returns (j: nat)
    requires k <= n && BLOCK * n <= |input| && Decode(input, k).Decoded? && Decode(input, n).Failed?
    ensures k <= j < n && CorrectBlock(Block(input, j)).Bad?
  {
    hide CorrectBlock, Block;
    if Decode(input, n - 1).Failed? {
      j := FirstBad(input, k, n - 1);
    } else {
      j := n - 1;
    }
  }

  lemma BadFails(input: Word, j: nat, n: nat)
    requires j < n && BLOCK * n <= |input| && CorrectBlock(Block(input, j)).Bad?
    ensures Decode(input, n).Failed?
  {
    FailureSticks(input, j + 1, n);
  }

  /** It does happen: one clean block of a DM1 payload, with noise behind it that lies two flips from a
      codeword, in a full capture. */
  lemma NoiseLosesPayload(payload: Word, clk: nat, capacity: nat) returns (air: Word)
    requires |payload| == INFO
    ensures |air| == 2999 && air[..BLOCK] == EncodePayload(Whitened(Clk6(clk), HEADER_OFFSET, payload), 1)
    ensures AclPayload(air, 3, clk, capacity) == []
  {
    hide Whitened, EncodePayload, CorrectBlock, Decode, IsCodeword, EncodeBlock;
    var clean := EncodeBlock(Zeros(INFO));
    var noise := Flip(Flip(clean, 0), 1);
    air := EncodePayload(Whitened(Clk6(clk), HEADER_OFFSET, payload), 1) + noise + Zeros(2969);
    assert Block(air, 1) == noise;
    EncodedIsCodeword(Zeros(INFO));
    TwoFlipsApart(clean);
    BlockDecoding(noise, clean);
    BadFails(air, 1, 16);
  }

  lemma TwoFlipsApart(c: Word)
    requires |c| >= 2
    ensures Distance(Flip(Flip(c, 0), 1), c) == 2
  {
    var f := Flip(Flip(c, 0), 1);
    assert f[1..][1..] == c[1..][1..];
  }

  lemma Unwhitened(bits: Word, payload: Word, clk: nat, capacity: nat)
    requires 0 < |payload| <= |bits| && capacity > 0
    requires bits[..|payload|] == Whitened(Clk6(clk), HEADER_OFFSET, payload)
    ensures var dst := InBytes(bits, clk, capacity); dst != [] && Holds(dst, payload, capacity)
  {
    hide TableKey;
    var dst := InBytes(bits, clk, capacity);
    var key := TableKey(Clk6(clk), HEADER_OFFSET, |payload|);
    forall i | 0 <= i < |dst| && i < |payload| ensures dst[i] == payload[i] {
      assert bits[i] == bits[..|payload|][i] == (payload[i] != key[i]);
      KeyAt(Clk6(clk), |payload|, if |bits| <= |dst| then |bits| else |dst|, i);
    }
  }

  lemma KeyAt(clk6: nat, m: nat, n: nat, i: nat)
    requires clk6 < 64 && i < m && i < n
    ensures TableKey(clk6, HEADER_OFFSET, m)[i] == TableKey(clk6, HEADER_OFFSET, n)[i]
  {
  }

  /** A DH payload carries no correction: it comes back as it was sent, whatever follows it. */
  lemma DhRoundTrip(payload: Word, more: Word, kind: nat, clk: nat, capacity: nat)
    requires kind % 16 == 4 || kind % 16 == 9 || kind % 16 == 11 || kind % 16 == 15
    requires 0 < |payload| <= OnAirBits(kind) && capacity > 0
    ensures var air := Whitened(Clk6(clk), HEADER_OFFSET, payload) + more;
            var dst := AclPayload(air, kind, clk, capacity);
            var bytes := (Captured(air, kind) + 7) / 8;
            dst != [] && Holds(dst, payload, capacity) && |dst| == 8 * (if bytes > capacity then capacity else bytes)
  {
    hide Whitened, OnAirBits, Clk6, Holds, Padded;
    var air := Whitened(Clk6(clk), HEADER_OFFSET, payload) + more;
    var n := Captured(air, kind);
    assert air[..n][..|payload|] == Whitened(Clk6(clk), HEADER_OFFSET, payload);
    Unwhitened(air[..n], payload, clk, capacity);
  }

  /** Payload header, user bytes and CRC of the ACL types (section 6.5.4): DM1, DH1, AUX1, DM3, DH3, DM5, DH5. */
  function LongestBytes(kind: nat): (n: nat) {
    match kind
    case 3 => 1 + 17 + 2
    case 4 => 1 + 27 + 2
    case 9 => 1 + 29
    case 10 => 2 + 121 + 2
    case 11 => 2 + 183 + 2
    case 14 => 2 + 224 + 2
    case 15 => 2 + 339 + 2
    case _ => 0
  }

  /** The table holds what the longest payload occupies on air: for DM types in blocks of 15 bits for ten; the
      types without an ACL payload yield nothing. */
  lemma LengthsAreStandard(kind: nat, air: Word, clk: nat, capacity: nat)
    requires kind < 16
    ensures var bits := 8 * LongestBytes(kind);
            if kind == 3 || kind == 10 || kind == 14 then OnAirBits(kind) == 15 * ((bits + 9) / 10)
            else if kind == 4 || kind == 9 || kind == 11 || kind == 15 then OnAirBits(kind) == bits
            else AclPayload(air, kind, clk, capacity) == []
  {
    hide Decode, InBytes;
  }
}
