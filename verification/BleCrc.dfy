/** The 24-bit CRC of the LE link layer (Bluetooth Core, Vol 6 Part B, section 3.1.1) and the recovery
    of an unknown CRCInit from a two-byte PDU. */
module BleCrc {
  import opened Bits
  import opened LinearAlgebra

  const WIDTH: nat := 24

  /** The generator's terms below x^24: x^10 + x^9 + x^6 + x^4 + x^3 + x + 1. */
  const POLYNOMIAL: nat := 0x65B

  predicate NatBit(v: nat, i: nat) {
    if i == 0 then v % 2 == 1 else NatBit(v / 2, i - 1)
  }

  predicate Tap(i: nat) {
    NatBit(POLYNOMIAL, i)
  }

  /** Feed one message bit: shift left within 24 bits and add the taps when the bit that leaves
      differs from the message bit. */
  function Step(crc: Word, d: bool): (r: Word)
    requires |crc| == WIDTH
    ensures |r| == WIDTH
  {
    var fb := crc[WIDTH - 1] != d;
    seq(WIDTH, i requires 0 <= i < WIDTH => (i > 0 && crc[i - 1]) != (fb && Tap(i)))
  }

  /** The register after the message bits, in air order, from the given initial value. */
  function Crc(init: Word, data: Word): (r: Word)
    requires |init| == WIDTH
    ensures |r| == WIDTH
    decreases |data|
  {
    if |data| == 0 then init else Crc(Step(init, data[0]), data[1..])
  }

  /** One turn of the program's inner loop. */
  function ShiftAndAdd(crc: Word, d: bool): (r: Word)
    requires |crc| == WIDTH
    ensures r == Step(crc, d)
  {
    var shifted := [false] + crc[..WIDTH - 1];
    if crc[WIDTH - 1] != d then Xor(shifted, seq(WIDTH, j requires 0 <= j < WIDTH => Tap(j))) else shifted
  }

  lemma CrcNext(crc: Word, data: Word, at: nat)
    requires |crc| == WIDTH && at < |data|
    ensures Crc(crc, data[at..]) == Crc(Step(crc, data[at]), data[at + 1..])
  {
    assert data[at..][1..] == data[at + 1..];
  }

  method CrcCalc(data: Word, len: nat, init: Word) returns (crc: Word)
    requires 8 * len <= |data| && |init| == WIDTH
    ensures crc == Crc(init, data[..8 * len])
  {
    hide Crc, Step, ShiftAndAdd;
    crc := init;
    ghost var all := data[..8 * len];
    assert all[0..] == all;
    var i := 0;
    while i < len
      invariant i <= len && |crc| == WIDTH
      invariant Crc(crc, all[8 * i..]) == Crc(init, all)
    {
      var bit := 0;
      while bit < 8
        invariant bit <= 8 && |crc| == WIDTH
        invariant Crc(crc, all[8 * i + bit..]) == Crc(init, all)
      {
        CrcNext(crc, all, 8 * i + bit);
        crc := ShiftAndAdd(crc, data[8 * i + bit]);
        bit := bit + 1;
      }
      i := i + 1;
    }
    CrcDone(crc);
    assert all[8 * len..] == [];
  }

  lemma CrcDone(crc: Word)
    requires |crc| == WIDTH
    ensures Crc(crc, []) == crc
  {
  }

  /** Undo one step: bit 0 of the new register tells whether the taps were added. */
  function Unstep(r: Word, d: bool): (crc: Word)
    requires |r| == WIDTH
    ensures |crc| == WIDTH
  {
    seq(WIDTH, i requires 0 <= i < WIDTH =>
      if i == WIDTH - 1 then r[0] != d else r[i + 1] != (r[0] && Tap(i + 1)))
  }

  /** The initial value from which `data` leads to r. */
  function InitFor(r: Word, data: Word): (init: Word)
    requires |r| == WIDTH
    ensures |init| == WIDTH
    decreases |data|
  {
    if |data| == 0 then r else Unstep(InitFor(r, data[1..]), data[0])
  }

  lemma StepUnstep(crc: Word, d: bool)
    requires |crc| == WIDTH
    ensures Unstep(Step(crc, d), d) == crc && Step(Unstep(crc, d), d) == crc
  {
  }

  /** For every message, CRC and initial value determine each other. */
  lemma {:induction false} CrcBijective(init: Word, data: Word, r: Word)
    requires |init| == |r| == WIDTH
    ensures Crc(init, data) == r <==> init == InitFor(r, data)
    decreases |data|
  {
    if |data| > 0 {
      CrcBijective(Step(init, data[0]), data[1..], r);
      StepUnstep(init, data[0]);
      StepUnstep(InitFor(r, data[1..]), data[0]);
    }
  }

  /** At most one initial value explains a message and its CRC. */
  lemma InitUnique(a: Word, b: Word, data: Word)
    requires |a| == |b| == WIDTH && Crc(a, data) == Crc(b, data)
    ensures a == b
  {
    CrcBijective(a, data, Crc(a, data));
    CrcBijective(b, data, Crc(a, data));
  }

  /** The CRC is affine over GF(2) in the initial value and the message together. */
  lemma {:induction false} CrcAffine(a: Word, b: Word, x: Word, y: Word)
    requires |a| == |b| == WIDTH && |x| == |y|
    ensures Crc(Xor(a, b), Xor(x, y)) == Xor(Crc(a, x), Crc(b, y))
    decreases |x|
  {
    if |x| > 0 {
      assert Step(Xor(a, b), x[0] != y[0]) == Xor(Step(a, x[0]), Step(b, y[0]));
      assert Xor(x, y)[1..] == Xor(x[1..], y[1..]);
      CrcAffine(Step(a, x[0]), Step(b, y[0]), x[1..], y[1..]);
    } else {
      assert Xor(a, b) == Xor(Crc(a, x), Crc(b, y));
    }
  }

  /** The CRC of an all-zero two-byte PDU: the part of a CRC that the initial value contributes. */
  function Contribution(init: Word): (y: Word)
    requires |init| == WIDTH
    ensures |y| == WIDTH
  {
    Crc(init, Zeros(16))
  }

  lemma ContributionLinear(a: Word, b: Word)
    requires |a| == |b| == WIDTH
    ensures Contribution(Xor(a, b)) == Xor(Contribution(a), Contribution(b))
    ensures Contribution(Zeros(WIDTH)) == Zeros(WIDTH)
  {
    hide Crc;
    var z, m := Zeros(WIDTH), Zeros(16);
    assert Xor(m, m) == m && Xor(z, z) == z;
    CrcAffine(a, b, m, m);
    CrcAffine(z, z, m, m);
    assert forall i :: 0 <= i < WIDTH ==> !Crc(z, m)[i];
  }

  /** Columns of that linear map. */
  ghost function Columns(): (cols: seq<Word>)
    ensures Square(cols, WIDTH)
    ensures forall k :: 0 <= k < WIDTH ==> cols[k] == Contribution(Unit(WIDTH, k))
  {
    seq(WIDTH, k requires 0 <= k < WIDTH => Contribution(Unit(WIDTH, k)))
  }

  function LowBits(x: Word, k: nat): (r: Word)
    requires k <= |x|
    ensures |r| == |x|
    ensures forall i :: 0 <= i < |x| ==> r[i] == (i < k && x[i])
  {
    x[..k] + Zeros(|x| - k)
  }

  lemma {:induction false} ColumnsGiveContribution(x: Word, k: nat)
    requires |x| == WIDTH && k <= WIDTH
    ensures Apply(Columns(), x, k) == Contribution(LowBits(x, k))
  {
    hide Contribution, Columns, LowBits;
    ContributionLinear(x, x);
    if k == 0 {
      assert LowBits(x, 0) == Zeros(WIDTH);
    } else {
      ColumnsGiveContribution(x, k - 1);
      var low := LowBits(x, k - 1);
      if x[k - 1] {
        ContributionLinear(low, Unit(WIDTH, k - 1));
        assert Xor(low, Unit(WIDTH, k - 1)) == LowBits(x, k);
      } else {
        assert low == LowBits(x, k);
      }
    }
  }

  lemma MapIsContribution(x: Word)
    requires |x| == WIDTH
    ensures Map(Columns(), x) == Contribution(x)
  {
    hide Columns, Contribution;
    ColumnsGiveContribution(x, WIDTH);
    assert LowBits(x, WIDTH) == x;
  }

  /** So the elimination never meets a singular column on the CRC's matrix. */
  lemma ColumnsInjective()
    ensures Injective(Columns(), WIDTH)
  {
    forall x: Word, y: Word | |x| == WIDTH && |y| == WIDTH && Map(Columns(), x) == Map(Columns(), y)
      ensures x == y
    {
      MapIsContribution(x);
      MapIsContribution(y);
      InitUnique(x, y, Zeros(16));
    }
  }

  /** Parity by folding halves, and a 16-entry table on the last four bits. */
  function Parity32(v: Word): (p: bool)
    requires |v| == 32
  {
    var v16 := Xor(v[..16], v[16..]);
    var v8 := Xor(v16[..8], v16[8..]);
    var v4 := Xor(v8[..4], v8[4..]);
    ParityTable(ToNat(v4))
  }

  /** Bit i of 0x6996. */
  predicate ParityTable(i: nat) {
    i in {1, 2, 4, 7, 8, 11, 13, 14}
  }

  function Parity(v: Word): (p: bool) {
    |v| > 0 && (v[0] != Parity(v[1..]))
  }

  lemma {:induction false} ParitySplit(a: Word, b: Word)
    ensures Parity(a + b) == (Parity(a) != Parity(b))
  {
    if |a| > 0 {
      assert (a + b)[1..] == a[1..] + b;
      ParitySplit(a[1..], b);
    } else {
      assert a + b == b;
    }
  }

  lemma {:induction false} ParityXor(a: Word, b: Word)
    requires |a| == |b|
    ensures Parity(Xor(a, b)) == (Parity(a) != Parity(b))
  {
    if |a| > 0 {
      assert Xor(a, b)[1..] == Xor(a[1..], b[1..]);
      ParityXor(a[1..], b[1..]);
    }
  }

  lemma ParityHalves(v: Word, n: nat)
    requires |v| == 2 * n
    ensures Parity(Xor(v[..n], v[n..])) == Parity(v)
  {
    ParityXor(v[..n], v[n..]);
    ParitySplit(v[..n], v[n..]);
    assert v == v[..n] + v[n..];
  }

  lemma Parity32Correct(v: Word)
    requires |v| == 32
    ensures Parity32(v) == Parity(v)
  {
    var v16 := Xor(v[..16], v[16..]);
    var v8 := Xor(v16[..8], v16[8..]);
    var v4 := Xor(v8[..4], v8[4..]);
    ParityHalves(v, 16);
    ParityHalves(v16, 8);
    ParityHalves(v8, 4);
    ParityOfFour(v4);
  }

  lemma ParityOfFour(v: Word)
    requires |v| == 4
    ensures ParityTable(ToNat(v)) == Parity(v)
  {
    assert v[1..][1..] == v[2..] && v[2..][1..] == v[3..] && v[3..][1..] == [];
    assert Parity(v[3..]) == v[3] && Parity(v[2..]) == (v[2] != v[3]);
    assert ToNat(v[3..]) == BitVal(v[3]) && ToNat(v[2..]) == BitVal(v[2]) + 2 * BitVal(v[3]);
    assert ToNat(v) == BitVal(v[0]) + 2 * BitVal(v[1]) + 4 * BitVal(v[2]) + 8 * BitVal(v[3]);
    assert Parity(v) == (v[0] != (v[1] != (v[2] != v[3])));
  }

  function And(a: Word, b: Word): (r: Word)
    requires |a| == |b|
    ensures |r| == |a|
  {
    seq(|a|, i requires 0 <= i < |a| => a[i] && b[i])
  }

  lemma {:induction false} DotIsParity(a: Word, x: Word, k: nat)
    requires |a| == |x| && k <= |a|
    ensures Dot(a, x, k) == Parity(And(a, x)[..k])
  {
    if k > 0 {
      DotIsParity(a, x, k - 1);
      var v := And(a, x);
      assert v[..k] == v[..k - 1] + [v[k - 1]];
      ParitySplit(v[..k - 1], [v[k - 1]]);
    }
  }

  lemma RowParity(row: Word, y: Word)
    requires |row| == |y| == WIDTH
    ensures Parity32(And(row, y) + Zeros(8)) == Dot(row, y, WIDTH)
  {
    Parity32Correct(And(row, y) + Zeros(8));
    ParitySplit(And(row, y), Zeros(8));
    ParityOfZeros(8);
    DotIsParity(row, y, WIDTH);
    assert And(row, y)[..WIDTH] == And(row, y);
  }

  lemma {:induction false} ParityOfZeros(n: nat)
    ensures !Parity(Zeros(n))
  {
    if n > 0 {
      assert Zeros(n)[1..] == Zeros(n - 1);
      ParityOfZeros(n - 1);
    }
  }

  /** The lazily built table of the inverse matrix. */
  class RecoveryTable {
    var invRows: seq<Word>
    var ready: bool

    ghost predicate Valid()
      reads this
    {
      ready ==> Square(invRows, WIDTH) && Inverts(Columns(), invRows, WIDTH)
    }

    constructor ()
      ensures Valid() && !ready
    {
      invRows, ready := [], false;
    }

    /** Build the table once; it always succeeds. */
    method TablesInit()
      requires Valid()
      modifies this
      ensures Valid() && ready
      ensures old(ready) ==> invRows == old(invRows)
    {
      hide Crc, Columns, Represents, Injective, Inverts;
      if ready {
        return;
      }
      var cols: seq<Word> := [];
      var k := 0;
      while k < WIDTH
        invariant k <= WIDTH && |cols| == k
        invariant forall i :: 0 <= i < k ==> cols[i] == Contribution(Unit(WIDTH, i))
      {
        var col := CrcCalc(Zeros(16), 2, Unit(WIDTH, k));
        assert Zeros(16)[..16] == Zeros(16);
        cols := cols + [col];
        k := k + 1;
      }
      assert cols == Columns();
      ColumnsInjective();
      var ok, inverse := Invert(cols);
      invRows, ready := inverse, true;
    }

    /** Recover the CRCInit of a two-byte PDU from its received CRC. */
    method ReverseInitLen2(header: Word, rxCrc: Word) returns (init: Word)
      requires Valid() && |header| == 16 && |rxCrc| == WIDTH
      modifies this
      ensures Valid() && ready
      ensures init == InitFor(rxCrc, header)
      ensures Crc(init, header) == rxCrc
    {
      hide Crc, Columns, Parity32, Dot, InitFor;
      TablesInit();
      var a := CrcCalc(header, 2, Zeros(WIDTH));
      assert header[..16] == header;
      var y := Xor(rxCrc, a);
      ghost var truth := InitFor(rxCrc, header);
      CrcBijective(truth, header, rxCrc);
      PartOfInit(truth, header);
      assert y == Map(Columns(), truth);
      init := Zeros(WIDTH);
      var r := 0;
      while r < WIDTH
        invariant r <= WIDTH && |init| == WIDTH
        invariant Square(invRows, WIDTH) && Inverts(Columns(), invRows, WIDTH)
        invariant forall i :: 0 <= i < r ==> init[i] == truth[i]
        invariant forall i :: r <= i < WIDTH ==> !init[i]
        invariant ready
      {
        RowParity(invRows[r], y);
        if Parity32(And(invRows[r], y) + Zeros(8)) {
          init := init[r := true];
        }
        r := r + 1;
      }
    }
  }

  /** Taking away the CRC of the message from a zero register leaves the initial value's part. */
  lemma PartOfInit(init: Word, data: Word)
    requires |init| == WIDTH && |data| == 16
    ensures Xor(Crc(init, data), Crc(Zeros(WIDTH), data)) == Map(Columns(), init)
  {
    CrcAffine(init, Zeros(WIDTH), data, data);
    assert Xor(init, Zeros(WIDTH)) == init && Xor(data, data) == Zeros(16);
    MapIsContribution(init);
  }
}
