/** Hamming distance between received and sent bits. */
module Distances {
  import opened Bits

  /** Number of positions at which two words of one length differ. */
  function Distance(a: Word, b: Word): (d: nat)
    requires |a| == |b|
    ensures d <= |a|
    ensures d == 0 <==> a == b
  {
    if |a| == 0 then 0 else BitVal(a[0] != b[0]) + Distance(a[1..], b[1..])
  }

  lemma {:induction false} DistanceSplit(a: Word, b: Word, a': Word, b': Word)
    requires |a| == |b| && |a'| == |b'|
    ensures Distance(a + a', b + b') == Distance(a, b) + Distance(a', b')
  {
    if |a| == 0 {
      assert a + a' == a' && b + b' == b';
    } else {
      assert (a + a')[1..] == a[1..] + a' && (b + b')[1..] == b[1..] + b';
      DistanceSplit(a[1..], b[1..], a', b');
    }
  }

  /** A word and its complement share out the positions. */
  lemma {:induction false} DistanceComplement(a: Word, b: Word, c: Word)
    requires |a| == |b| == |c| && forall i :: 0 <= i < |a| ==> b[i] != c[i]
    ensures Distance(a, b) + Distance(a, c) == |a|
  {
    if |a| > 0 {
      DistanceComplement(a[1..], b[1..], c[1..]);
    }
  }

  /** The end of a word is no further off than the word. */
  lemma DistanceOfEnd(a: Word, b: Word, n: nat)
    requires |a| == |b| && n <= |a|
    ensures Distance(a[n..], b[n..]) <= Distance(a, b)
  {
    assert a == a[..n] + a[n..] && b == b[..n] + b[n..];
    DistanceSplit(a[..n], b[..n], a[n..], b[n..]);
  }

  /** Words at a positive distance differ somewhere; repairing that position brings them closer. */
  lemma {:induction false} SomeFlip(a: Word, b: Word) returns (i: nat)
    requires |a| == |b| && Distance(a, b) > 0
    ensures i < |a| && a[i] != b[i]
    ensures Distance(Flip(a, i), b) == Distance(a, b) - 1
  {
    if a[0] != b[0] {
      i := 0;
      assert Flip(a, 0)[1..] == a[1..];
    } else {
      var j := SomeFlip(a[1..], b[1..]);
      i := j + 1;
      assert Flip(a, i)[1..] == Flip(a[1..], j);
    }
  }

  function Flip(a: Word, i: nat): (r: Word)
    requires i < |a|
    ensures |r| == |a|
  {
    a[i := !a[i]]
  }

  lemma FlipIsXor(a: Word, i: nat)
    requires i < |a|
    ensures Flip(a, i) == Xor(a, Unit(|a|, i))
    ensures Flip(Flip(a, i), i) == a
  {
  }

  lemma {:induction false} FlipDistance(a: Word, i: nat)
    requires i < |a|
    ensures Distance(Flip(a, i), a) == 1
  {
    if i == 0 {
      assert Flip(a, i)[1..] == a[1..];
    } else {
      assert Flip(a, i)[1..] == Flip(a[1..], i - 1);
      FlipDistance(a[1..], i - 1);
    }
  }

  lemma {:induction false} DistanceSymmetric(a: Word, b: Word)
    requires |a| == |b|
    ensures Distance(a, b) == Distance(b, a)
  {
    if |a| > 0 {
      DistanceSymmetric(a[1..], b[1..]);
    }
  }
}
