/** Gauss-Jordan inversion over GF(2), as `ble_crc_tables_init` performs it on 24 rows.  A matrix is
    given by its columns; a row is a word whose bit k is the coefficient of input bit k. */
module LinearAlgebra {
  import opened Bits

  /** Parity of the low k bits of a & x. */
  function Dot(a: Word, x: Word, k: nat): (p: bool)
    requires k <= |a| && k <= |x|
  {
    k > 0 && (Dot(a, x, k - 1) != (a[k - 1] && x[k - 1]))
  }

  predicate Square(m: seq<Word>, n: nat) {
    |m| == n && forall i :: 0 <= i < n ==> |m[i]| == n
  }

  /** Sum of the first k columns selected by x. */
  function Apply(cols: seq<Word>, x: Word, k: nat): (y: Word)
    requires Square(cols, |x|) && k <= |x|
    ensures |y| == |x|
  {
    if k == 0 then Zeros(|x|)
    else
      var y := Apply(cols, x, k - 1);
      if x[k - 1] then Xor(y, cols[k - 1]) else y
  }

  /** The map x |-> sum of the columns selected by x. */
  function Map(cols: seq<Word>, x: Word): (y: Word)
    requires Square(cols, |x|)
    ensures |y| == |x|
  {
    Apply(cols, x, |x|)
  }

  ghost predicate Injective(cols: seq<Word>, n: nat)
    requires Square(cols, n)
  {
    forall x: Word, y: Word :: |x| == n && |y| == n && Map(cols, x) == Map(cols, y) ==> x == y
  }

  /** left = right * cols, read through an arbitrary argument. */
  ghost predicate Represents(cols: seq<Word>, left: seq<Word>, right: seq<Word>, n: nat)
    requires Square(cols, n) && Square(left, n) && Square(right, n)
  {
    forall x: Word, r :: |x| == n && 0 <= r < n ==> Dot(left[r], x, n) == Dot(right[r], Map(cols, x), n)
  }

  ghost predicate Vanishes(rows: seq<Word>, y: Word, n: nat)
    requires Square(rows, n) && |y| == n
  {
    forall r :: 0 <= r < n ==> !Dot(rows[r], y, n)
  }

  /** The rows are independent: only zero is orthogonal to all of them. */
  ghost predicate Separates(rows: seq<Word>, n: nat)
    requires Square(rows, n)
  {
    forall y: Word :: |y| == n && Vanishes(rows, y, n) ==> y == Zeros(n)
  }

  /** The first c columns of left are those of the identity. */
  ghost predicate Reduced(left: seq<Word>, c: nat, n: nat)
    requires Square(left, n) && c <= n
  {
    forall r, k :: 0 <= r < n && 0 <= k < c ==> left[r][k] == (r == k)
  }

  /** What holds between two columns of the elimination. */
  ghost predicate Eliminated(cols: seq<Word>, left: seq<Word>, right: seq<Word>, c: nat, n: nat) {
    && Square(cols, n) && Square(left, n) && Square(right, n) && c <= n
    && Represents(cols, left, right, n) && Separates(right, n) && Reduced(left, c, n)
  }

  lemma {:induction false} DotXor(a: Word, b: Word, x: Word, k: nat)
    requires |a| == |b| && k <= |a| && k <= |x|
    ensures Dot(Xor(a, b), x, k) == (Dot(a, x, k) != Dot(b, x, k))
  {
    if k > 0 {
      DotXor(a, b, x, k - 1);
    }
  }

  lemma {:induction false} DotUnit(n: nat, r: nat, x: Word, k: nat)
    requires r < n && k <= n && k <= |x|
    ensures Dot(Unit(n, r), x, k) == (r < k && x[r])
  {
    if k > 0 {
      DotUnit(n, r, x, k - 1);
    }
  }

  lemma {:induction false} DotZeros(a: Word, x: Word, k: nat)
    requires k <= |a| && k <= |x|
    requires forall i :: 0 <= i < k ==> !(a[i] && x[i])
    ensures !Dot(a, x, k)
  {
    if k > 0 {
      DotZeros(a, x, k - 1);
    }
  }

  /** Two common bits cancel. */
  lemma {:induction false} DotPair(a: Word, x: Word, k: nat, p: nat, q: nat)
    requires p < q < k <= |a| && k <= |x|
    requires forall i :: 0 <= i < k ==> (a[i] && x[i]) == (i == p || i == q)
    ensures !Dot(a, x, k)
  {
    if k - 1 > q {
      DotPair(a, x, k - 1, p, q);
    } else {
      DotSingle(a, x, q, p);
    }
  }

  lemma {:induction false} DotSingle(a: Word, x: Word, k: nat, p: nat)
    requires p < k <= |a| && k <= |x|
    requires forall i :: 0 <= i < k ==> (a[i] && x[i]) == (i == p)
    ensures Dot(a, x, k)
  {
    if k - 1 > p {
      DotSingle(a, x, k - 1, p);
    } else {
      DotZeros(a, x, p);
    }
  }

  /** Row r of the transposed columns, applied to x, is bit r of the map's value. */
  lemma {:induction false} TransposeApplies(cols: seq<Word>, row: Word, r: nat, x: Word, k: nat)
    requires Square(cols, |x|) && |row| == |x| && r < |x| && k <= |x|
    requires forall j :: 0 <= j < |x| ==> row[j] == cols[j][r]
    ensures Dot(row, x, k) == Apply(cols, x, k)[r]
  {
    if k > 0 {
      TransposeApplies(cols, row, r, x, k - 1);
    }
  }

  /** The state the elimination starts from. */
  lemma InitiallyEliminated(cols: seq<Word>, left: seq<Word>, right: seq<Word>, n: nat)
    requires Square(cols, n) && Square(left, n) && Square(right, n)
    requires forall r, k :: 0 <= r < n && 0 <= k < n ==> left[r][k] == cols[k][r]
    requires forall r :: 0 <= r < n ==> right[r] == Unit(n, r)
    ensures Eliminated(cols, left, right, 0, n)
  {
    forall x: Word, r | |x| == n && 0 <= r < n
      ensures Dot(left[r], x, n) == Dot(right[r], Map(cols, x), n)
    {
      TransposeApplies(cols, left[r], r, x, n);
      DotUnit(n, r, Map(cols, x), n);
    }
    forall y: Word | |y| == n && Vanishes(right, y, n) ensures y == Zeros(n) {
      forall r | 0 <= r < n ensures !y[r] {
        DotUnit(n, r, y, n);
        assert !Dot(right[r], y, n);
      }
    }
  }

  /** A vector left sends to zero when no row at or below c has a one in column c. */
  function KernelVector(left: seq<Word>, c: nat, n: nat): (x: Word)
    requires Square(left, n) && c < n
    ensures |x| == n
  {
    seq(n, i requires 0 <= i < n => if i < c then left[i][c] else i == c)
  }

  lemma NoPivotMeansSingular(cols: seq<Word>, left: seq<Word>, right: seq<Word>, c: nat, n: nat)
    requires Eliminated(cols, left, right, c, n) && c < n
    requires forall p :: c <= p < n ==> !left[p][c]
    ensures !Injective(cols, n)
  {
    var x := KernelVector(left, c, n);
    forall r | 0 <= r < n ensures !Dot(right[r], Map(cols, x), n) {
      if r < c && left[r][c] {
        DotPair(left[r], x, n, r, c);
      } else {
        DotZeros(left[r], x, n);
      }
      assert Dot(left[r], x, n) == Dot(right[r], Map(cols, x), n);
    }
    assert Vanishes(right, Map(cols, x), n);
    MapOfZero(cols, n, n);
    assert Map(cols, Zeros(n)) == Map(cols, x);
    assert x[c] && !Zeros(n)[c];
  }

  lemma {:induction false} MapOfZero(cols: seq<Word>, n: nat, k: nat)
    requires Square(cols, n) && k <= n
    ensures Apply(cols, Zeros(n), k) == Zeros(n)
  {
    if k > 0 {
      MapOfZero(cols, n, k - 1);
    }
  }

  lemma SwapKeeps(cols: seq<Word>, left: seq<Word>, right: seq<Word>, c: nat, p: nat, n: nat)
    requires Eliminated(cols, left, right, c, n) && c < p < n
    ensures Eliminated(cols, left[c := left[p]][p := left[c]], right[c := right[p]][p := right[c]], c, n)
  {
    hide Separates, Reduced, Represents;
    SwapSeparates(right, c, p, n);
    SwapReduced(left, c, p, n);
    SwapRepresents(cols, left, right, c, p, n);
  }

  lemma SwapReduced(left: seq<Word>, c: nat, p: nat, n: nat)
    requires Square(left, n) && c < p < n && Reduced(left, c, n)
    ensures Reduced(left[c := left[p]][p := left[c]], c, n)
  {
    hide Dot, Map;
  }

  lemma SwapRepresents(cols: seq<Word>, left: seq<Word>, right: seq<Word>, c: nat, p: nat, n: nat)
    requires Square(cols, n) && Square(left, n) && Square(right, n) && Represents(cols, left, right, n) && c < p < n
    ensures Represents(cols, left[c := left[p]][p := left[c]], right[c := right[p]][p := right[c]], n)
  {
    hide Dot, Map;
  }

  lemma SwapSeparates(right: seq<Word>, c: nat, p: nat, n: nat)
    requires Square(right, n) && Separates(right, n) && c < p < n
    ensures Separates(right[c := right[p]][p := right[c]], n)
  {
    var right' := right[c := right[p]][p := right[c]];
    forall y: Word | |y| == n && Vanishes(right', y, n) ensures y == Zeros(n) {
      assert !Dot(right'[c], y, n) && !Dot(right'[p], y, n);
      forall r | 0 <= r < n ensures !Dot(right[r], y, n) {
        assert !Dot(right'[r], y, n);
      }
      assert Vanishes(right, y, n);
    }
  }

  lemma AddRowKeeps(cols: seq<Word>, left: seq<Word>, right: seq<Word>, c: nat, r: nat, n: nat)
    requires Eliminated(cols, left, right, c, n) && c < n && r < n && r != c
    ensures Eliminated(cols, left[r := Xor(left[r], left[c])], right[r := Xor(right[r], right[c])], c, n)
  {
    var left', right' := left[r := Xor(left[r], left[c])], right[r := Xor(right[r], right[c])];
    forall x: Word, i | |x| == n && 0 <= i < n
      ensures Dot(left'[i], x, n) == Dot(right'[i], Map(cols, x), n)
    {
      DotXor(left[r], left[c], x, n);
      DotXor(right[r], right[c], Map(cols, x), n);
    }
    forall y: Word | |y| == n && Vanishes(right', y, n) ensures y == Zeros(n) {
      DotXor(right[r], right[c], y, n);
      assert !Dot(right'[c], y, n) && !Dot(right'[r], y, n);
      forall i | 0 <= i < n ensures !Dot(right[i], y, n) {
        assert !Dot(right'[i], y, n);
      }
      assert Vanishes(right, y, n);
    }
  }

  /** right inverts the map: row r of right, applied to the image of x, is bit r of x. */
  ghost predicate Inverts(cols: seq<Word>, right: seq<Word>, n: nat)
    requires Square(cols, n) && Square(right, n)
  {
    forall x: Word, r :: |x| == n && 0 <= r < n ==> Dot(right[r], Map(cols, x), n) == x[r]
  }

  lemma FullyEliminated(cols: seq<Word>, left: seq<Word>, right: seq<Word>, n: nat)
    requires Eliminated(cols, left, right, n, n)
    ensures Inverts(cols, right, n)
    ensures Injective(cols, n)
  {
    forall x: Word, r | |x| == n && 0 <= r < n ensures Dot(right[r], Map(cols, x), n) == x[r] {
      assert left[r] == Unit(n, r);
      DotUnit(n, r, x, n);
    }
    forall x: Word, y: Word | |x| == n && |y| == n && Map(cols, x) == Map(cols, y) ensures x == y {
      forall r | 0 <= r < n ensures x[r] == y[r] {
        assert Dot(right[r], Map(cols, x), n) == Dot(right[r], Map(cols, y), n);
      }
    }
  }

  /** Bring a one into the diagonal position of column c by swapping rows; fails when there is none. */
  method Pivot(left: array<Word>, right: array<Word>, c: nat, ghost cols: seq<Word>) returns (ok: bool)
    requires left != right && left.Length == right.Length && c < left.Length
    requires Eliminated(cols, left[..], right[..], c, left.Length)
    modifies left, right
    ensures ok ==> Eliminated(cols, left[..], right[..], c, left.Length) && |left[c]| == left.Length && left[c][c]
    ensures !ok ==> !Injective(cols, left.Length)
  {
    hide Represents, Separates, Reduced, Injective;
    var n := left.Length;
    var pivot := c;
    while pivot < n && !left[pivot][c]
      invariant c <= pivot <= n
      invariant forall p :: c <= p < pivot ==> !left[p][c]
    {
      pivot := pivot + 1;
    }
    if pivot >= n {
      NoPivotMeansSingular(cols, left[..], right[..], c, n);
      return false;
    }
    if pivot != c {
      SwapKeeps(cols, left[..], right[..], c, pivot, n);
      ghost var l, r := left[..], right[..];
      left[c], left[pivot] := left[pivot], left[c];
      right[c], right[pivot] := right[pivot], right[c];
      assert left[..] == l[c := l[pivot]][pivot := l[c]];
      assert right[..] == r[c := r[pivot]][pivot := r[c]];
    }
    return true;
  }

  /** Clear column c in every other row. */
  method ClearColumn(left: array<Word>, right: array<Word>, c: nat, ghost cols: seq<Word>)
    requires left != right && left.Length == right.Length && c < left.Length
    requires Eliminated(cols, left[..], right[..], c, left.Length) && left[c][c]
    modifies left, right
    ensures Eliminated(cols, left[..], right[..], c + 1, left.Length)
  {
    hide Represents, Separates;
    var n := left.Length;
    var r := 0;
    while r < n
      invariant r <= n
      invariant Eliminated(cols, left[..], right[..], c, n)
      invariant left[c][c]
      invariant forall i :: 0 <= i < r && i != c ==> !left[i][c]
    {
      if r != c && left[r][c] {
        AddRowKeeps(cols, left[..], right[..], c, r, n);
        ghost var l, rr := left[..], right[..];
        left[r] := Xor(left[r], left[c]);
        right[r] := Xor(right[r], right[c]);
        assert left[..] == l[r := Xor(l[r], l[c])];
        assert right[..] == rr[r := Xor(rr[r], rr[c])];
      }
      r := r + 1;
    }
  }

  /** Gauss-Jordan elimination of [cols | identity]: it succeeds exactly when the map is injective, and
      then right holds the inverse. */
  method Invert(cols: seq<Word>) returns (ok: bool, inverse: seq<Word>)
    requires Square(cols, |cols|)
    ensures ok <==> Injective(cols, |cols|)
    ensures ok ==> Square(inverse, |cols|) && Inverts(cols, inverse, |cols|)
  {
    var n := |cols|;
    var left := new Word[n](r requires 0 <= r < n => seq(n, k requires 0 <= k < n => cols[k][r]));
    var right := new Word[n](r requires 0 <= r < n => Unit(n, r));
    InitiallyEliminated(cols, left[..], right[..], n);
    var c := 0;
    while c < n
      invariant c <= n && left != right && left.Length == right.Length == n && fresh(left) && fresh(right)
      invariant Eliminated(cols, left[..], right[..], c, n)
    {
      var found := Pivot(left, right, c, cols);
      if !found {
        return false, [];
      }
      ClearColumn(left, right, c, cols);
      c := c + 1;
    }
    FullyEliminated(cols, left[..], right[..], n);
    return true, right[..];
  }
}
