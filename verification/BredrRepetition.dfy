/** The 1/3 rate forward error correction of BR/EDR (Bluetooth Core, Vol 2 Part B, section 7.4): every bit is
    sent three times, the receiver takes the majority and counts what it overruled. */
module BredrRepetition {
  import opened Bits
  import opened Distances

  datatype Decoded = Refused | Decoded(bits: Word, errors: nat)

  function Ones(input: Word, k: nat): (n: nat)
    requires 3 * k + 3 <= |input|
    ensures n <= 3
  {
    BitVal(input[3 * k]) + BitVal(input[3 * k + 1]) + BitVal(input[3 * k + 2])
  }

  function Majority(input: Word, n: nat): (m: Word)
    requires 3 * n <= |input|
    ensures |m| == n && forall k :: 0 <= k < n ==> m[k] == (Ones(input, k) >= 2)
  {
    seq(n, k requires 0 <= k < n => Ones(input, k) >= 2)
  }

  /** Bits overruled in the first n triples. */
  function Overruled(input: Word, n: nat): nat
    requires 3 * n <= |input|
  {
    if n == 0 then 0
    else Overruled(input, n - 1) + (if Ones(input, n - 1) >= 2 then 3 - Ones(input, n - 1) else Ones(input, n - 1))
  }

  method FecDecode13(input: Word) returns (r: Decoded)
    ensures |input| % 3 != 0 ==> r.Refused?
    ensures |input| % 3 == 0 ==> r == Decoded(Majority(input, |input| / 3), Overruled(input, |input| / 3))
  {
    if |input| % 3 != 0 {
      return Refused;
    }
    var count := |input| / 3;
    var output: Word := [];
    var errors: nat := 0;
    var k := 0;
    while k < count
      invariant k <= count && output == Majority(input, k) && errors == Overruled(input, k)
    {
      var ones := Ones(input, k);
      var decoded := ones >= 2;
      errors := errors + if decoded then 3 - ones else ones;
      output := output + [decoded];
      k := k + 1;
    }
    return Decoded(output, errors);
  }

  /** What the transmitter sends. */
  function Repeated(m: Word): (s: Word)
    ensures |s| == 3 * |m|
    ensures forall k :: 0 <= k < |m| ==> s[3 * k] == m[k] && s[3 * k + 1] == m[k] && s[3 * k + 2] == m[k]
  {
    if |m| == 0 then [] else Repeated(m[..|m| - 1]) + [m[|m| - 1], m[|m| - 1], m[|m| - 1]]
  }

  function Triple(input: Word, k: nat): (t: Word)
    requires 3 * k + 3 <= |input|
    ensures |t| == 3
  {
    [input[3 * k], input[3 * k + 1], input[3 * k + 2]]
  }

  /** Differences between received and sent in triple k. */
  function TripleFlips(received: Word, sent: Word, k: nat): (d: nat)
    requires 3 * k + 3 <= |received| == |sent|
    ensures d <= 3
  {
    BitVal(received[3 * k] != sent[3 * k]) + BitVal(received[3 * k + 1] != sent[3 * k + 1])
    + BitVal(received[3 * k + 2] != sent[3 * k + 2])
  }

  lemma TripleDistance(a: Word, b: Word, k: nat)
    requires 3 * k + 3 <= |a| == |b|
    ensures Distance(a[..3 * k + 3], b[..3 * k + 3]) == Distance(a[..3 * k], b[..3 * k]) + TripleFlips(a, b, k)
  {
    assert a[..3 * k + 3] == a[..3 * k] + Triple(a, k) && b[..3 * k + 3] == b[..3 * k] + Triple(b, k);
    DistanceSplit(a[..3 * k], b[..3 * k], Triple(a, k), Triple(b, k));
    ThreeBits(Triple(a, k), Triple(b, k));
  }

  lemma ThreeBits(a: Word, b: Word)
    requires |a| == |b| == 3
    ensures Distance(a, b) == BitVal(a[0] != b[0]) + BitVal(a[1] != b[1]) + BitVal(a[2] != b[2])
  {
    assert Distance(a[2..], b[2..]) == BitVal(a[2] != b[2]);
    assert a[1..][1..] == a[2..] && b[1..][1..] == b[2..];
  }

  ghost predicate AllNear(received: Word, m: Word, n: nat)
    requires |received| == 3 * |m| && n <= |m|
  {
    forall k :: 0 <= k < n ==> TripleFlips(received, Repeated(m), k) <= 1
  }

  function Flips(received: Word, m: Word, n: nat): nat
    requires |received| == 3 * |m| && n <= |m|
  {
    Distance(received[..3 * n], Repeated(m)[..3 * n])
  }

  lemma OneTriple(received: Word, m: Word, k: nat)
    requires |received| == 3 * |m| && k < |m|
    ensures var f, ones := TripleFlips(received, Repeated(m), k), Ones(received, k);
            && f == (if m[k] then 3 - ones else ones)
            && (f <= 1 <==> (ones >= 2) == m[k])
  {
  }

  /** The majority of each of the first n triples is the message bit. */
  ghost predicate Agrees(received: Word, m: Word, n: nat)
    requires |received| == 3 * |m| && n <= |m|
  {
    forall k :: 0 <= k < n ==> (Ones(received, k) >= 2) == m[k]
  }

  lemma {:induction false} ClosestUpTo(received: Word, m: Word, n: nat)
    requires |received| == 3 * |m| && n <= |m|
    ensures Overruled(received, n) <= Flips(received, m, n)
    ensures AllNear(received, m, n) <==> Agrees(received, m, n)
    ensures Agrees(received, m, n) ==> Overruled(received, n) == Flips(received, m, n)
  {
    hide *;
    if n == 0 {
      FlipsNone(received, m);
    } else {
      ClosestUpTo(received, m, n - 1);
      OneTriple(received, m, n - 1);
      FlipsNext(received, m, n);
      NearNext(received, m, n);
      OverruledNext(received, m, n);
    }
  }

  /** The decoded word is a closest one: no message explains the received bits with fewer flips, and one
      that explains them with at most one flip a triple is the decoded word, with exactly that count. */
  lemma Closest(received: Word, m: Word)
    requires |received| == 3 * |m|
    ensures Overruled(received, |m|) <= Distance(received, Repeated(m))
    ensures AllNear(received, m, |m|) <==> Majority(received, |m|) == m
    ensures Majority(received, |m|) == m ==> Overruled(received, |m|) == Distance(received, Repeated(m))
  {
    hide Distance, Repeated, TripleFlips, Ones;
    ClosestUpTo(received, m, |m|);
    assert received[..3 * |m|] == received && Repeated(m)[..3 * |m|] == Repeated(m);
  }

  lemma FlipsNone(received: Word, m: Word)
    requires |received| == 3 * |m|
    ensures Overruled(received, 0) == Flips(received, m, 0) == 0
    ensures Agrees(received, m, 0) && AllNear(received, m, 0)
  {
  }

  lemma FlipsNext(received: Word, m: Word, n: nat)
    requires |received| == 3 * |m| && 0 < n <= |m|
    ensures Flips(received, m, n) == Flips(received, m, n - 1) + TripleFlips(received, Repeated(m), n - 1)
  {
    hide Repeated, TripleFlips, Distance;
    assert 3 * (n - 1) + 3 == 3 * n;
    TripleDistance(received, Repeated(m), n - 1);
  }

  lemma NearNext(received: Word, m: Word, n: nat)
    requires |received| == 3 * |m| && 0 < n <= |m|
    ensures AllNear(received, m, n) <==> AllNear(received, m, n - 1) && TripleFlips(received, Repeated(m), n - 1) <= 1
  {
    hide Repeated, TripleFlips, Distance;
  }

  lemma OverruledNext(received: Word, m: Word, n: nat)
    requires |received| == 3 * |m| && 0 < n <= |m|
    ensures Agrees(received, m, n) <==> Agrees(received, m, n - 1) && (Ones(received, n - 1) >= 2) == m[n - 1]
    ensures var ones := Ones(received, n - 1);
            Overruled(received, n) == Overruled(received, n - 1) + (if ones >= 2 then 3 - ones else ones)
  {
    hide Ones;
  }
}
