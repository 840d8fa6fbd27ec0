/** Machine words as bit sequences.  A w-bit register of the program is a `Word` of length w whose
    element i is bit i, so truncation and shifting are explicit slices. */
module Bits {
  type Word = seq<bool>

  function BitVal(b: bool): (v: nat)
    ensures v <= 1
  {
    if b then 1 else 0
  }

  /** The unsigned value of a word. */
  function ToNat(w: Word): (v: nat) {
    if |w| == 0 then 0 else BitVal(w[0]) + 2 * ToNat(w[1..])
  }

  /** The n low bits of v. */
  function FromNat(v: nat, n: nat): (w: Word)
    ensures |w| == n
  {
    if n == 0 then [] else [v % 2 == 1] + FromNat(v / 2, n - 1)
  }

  function Xor(a: Word, b: Word): (r: Word)
    requires |a| == |b|
    ensures |r| == |a|
    ensures forall i :: 0 <= i < |a| ==> r[i] == (a[i] != b[i])
  {
    seq(|a|, i requires 0 <= i < |a| => a[i] != b[i])
  }

  function Zeros(n: nat): (w: Word)
    ensures |w| == n
    ensures forall i :: 0 <= i < n ==> !w[i]
  {
    seq(n, _ => false)
  }

  lemma XorExchange(a: Word, b: Word, c: Word, d: Word)
    requires |a| == |b| == |c| == |d|
    ensures Xor(Xor(a, c), Xor(b, d)) == Xor(Xor(a, b), Xor(c, d))
  {
  }

  lemma XorAssociates(a: Word, b: Word, c: Word)
    requires |a| == |b| == |c|
    ensures Xor(Xor(a, b), c) == Xor(a, Xor(b, c))
  {
  }

  lemma XorCancels(a: Word, b: Word)
    requires |a| == |b|
    ensures Xor(Xor(a, b), b) == a && Xor(a, a) == Zeros(|a|) && Xor(a, Zeros(|a|)) == a && Xor(a, b) == Xor(b, a)
    ensures Xor(a, b) == Zeros(|a|) ==> a == b
  {
    if Xor(a, b) == Zeros(|a|) {
      forall i | 0 <= i < |a| ensures a[i] == b[i] {
        assert Xor(a, b)[i] == Zeros(|a|)[i];
      }
    }
  }

  /** The word of length n whose only set bit is k. */
  function Unit(n: nat, k: nat): (w: Word)
    ensures |w| == n
    ensures forall i :: 0 <= i < n ==> w[i] == (i == k)
  {
    seq(n, i => i == k)
  }

  /** Swap nibbles, then bit pairs, then neighbouring bits. */
  function BitReverseByte(b: Word): (r: Word)
    requires |b| == 8
    ensures |r| == 8 && forall i :: 0 <= i < 8 ==> r[i] == b[7 - i]
  {
    var n := b[4..] + b[..4];
    var p := [n[2], n[3], n[0], n[1], n[6], n[7], n[4], n[5]];
    [p[1], p[0], p[3], p[2], p[5], p[4], p[7], p[6]]
  }

  function Reversed(w: Word): (r: Word)
    ensures |r| == |w| && forall i :: 0 <= i < |w| ==> r[i] == w[|w| - 1 - i]
  {
    seq(|w|, i requires 0 <= i < |w| => w[|w| - 1 - i])
  }

  lemma {:induction false} ToNatFromNat(v: nat, n: nat)
    requires v < Pow2(n)
    ensures ToNat(FromNat(v, n)) == v
  {
    if n > 0 {
      ToNatFromNat(v / 2, n - 1);
      assert FromNat(v, n)[1..] == FromNat(v / 2, n - 1);
    }
  }

  lemma {:induction false} ToNatBound(w: Word)
    ensures ToNat(w) < Pow2(|w|)
  {
    if |w| > 0 {
      ToNatBound(w[1..]);
    }
  }

  lemma {:induction false} ToNatInjective(a: Word, b: Word)
    requires |a| == |b|
    requires ToNat(a) == ToNat(b)
    ensures a == b
  {
    if |a| > 0 {
      var x, y := ToNat(a[1..]), ToNat(b[1..]);
      assert BitVal(a[0]) + 2 * x == BitVal(b[0]) + 2 * y;
      assert x == y;
      ToNatInjective(a[1..], b[1..]);
      assert a == [a[0]] + a[1..] && b == [b[0]] + b[1..];
    }
  }

  function Pow2(n: nat): (p: nat)
    ensures p > 0
  {
    if n == 0 then 1 else 2 * Pow2(n - 1)
  }
}
