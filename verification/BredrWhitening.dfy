/** Data whitening of BR/EDR (Bluetooth Core, Vol 2 Part B, section 7.2): the program walks a table from an
    index that depends on the clock; the standard clocks a shift register. */
module BredrWhitening {
  import opened Bits
  import opened WhiteningTables

  /** The data table read past its end, round and round. */
  function Key(i: nat): bool {
    Data(i % 127) == 1
  }

  /** n key bits from the table for clock value clk6, `offset` bits into the packet. */
  function TableKey(clk6: nat, offset: nat, n: nat): (k: Word)
    requires clk6 < 64
    ensures |k| == n
  {
    seq(n, i requires 0 <= i < n => Key(Index(clk6) + offset + i))
  }

  /** n key bits from the standard's register, `offset` clocks after it was loaded. */
  function RegisterKey(clk6: nat, offset: nat, n: nat): (k: Word)
    requires clk6 < 64
    ensures |k| == n
  {
    seq(n, i requires 0 <= i < n => After(Load(clk6), offset + i)[6])
  }

  lemma {:induction false} StateAfter(clk6: nat, n: nat)
    requires clk6 < 64
    ensures State((Index(clk6) + n) % 127) == Number(After(Load(clk6), n))
    ensures Key(Index(clk6) + n) == After(Load(clk6), n)[6]
  {
    hide Index, State, Step, Clock, Load, Data, Number;
    Seeds(clk6);
    if n == 0 {
      LoadNumber(clk6);
    } else {
      StateAfter(clk6, n - 1);
      TableStep((Index(clk6) + n - 1) % 127);
      StepIsClock(After(Load(clk6), n - 1));
    }
    TableStep((Index(clk6) + n) % 127);
    StepIsClock(After(Load(clk6), n));
  }

  /** The tables reproduce the register for every clock value and every offset. */
  lemma TableIsRegister(clk6: nat, offset: nat, n: nat)
    requires clk6 < 64
    ensures TableKey(clk6, offset, n) == RegisterKey(clk6, offset, n)
  {
    hide Key, After, Index, Load, State, Number;
    forall i | 0 <= i < n ensures TableKey(clk6, offset, n)[i] == RegisterKey(clk6, offset, n)[i] {
      StateAfter(clk6, offset + i);
      assert Index(clk6) + (offset + i) == Index(clk6) + offset + i;
    }
  }

  function Whitened(clk6: nat, offset: nat, data: Word): (r: Word)
    requires clk6 < 64
    ensures |r| == |data|
  {
    Xor(data, TableKey(clk6, offset, |data|))
  }

  /** Whitening twice gives the data back. */
  lemma WhiteningInvolution(clk6: nat, offset: nat, data: Word)
    requires clk6 < 64
    ensures Whitened(clk6, offset, Whitened(clk6, offset, data)) == data
  {
  }

  /** Whitening a concatenation is whitening its parts, the second one further into the key. */
  lemma WhiteningSplits(clk6: nat, offset: nat, a: Word, b: Word)
    requires clk6 < 64
    ensures Whitened(clk6, offset, a + b) == Whitened(clk6, offset, a) + Whitened(clk6, offset + |a|, b)
  {
  }

  lemma {:induction false} AfterClock(r: Word, n: nat)
    requires |r| == 7
    ensures After(Clock(r), n) == After(r, n + 1)
  {
    hide Clock;
    if n > 0 {
      AfterClock(r, n - 1);
    }
  }

  /** Registers that emit the same k bits agree on their top k positions. */
  lemma {:induction false} Observed(r: Word, s: Word, k: nat)
    requires |r| == |s| == 7 && k <= 7
    requires forall i: nat :: i < k ==> After(r, i)[6] == After(s, i)[6]
    ensures AgreeFrom(r, s, 7 - k)
    decreases k
  {
    if k > 0 {
      assert After(r, 0)[6] == After(s, 0)[6];
      forall i: nat | i < k - 1 ensures After(Clock(r), i)[6] == After(Clock(s), i)[6] {
        AfterClock(r, i);
        AfterClock(s, i);
      }
      Observed(Clock(r), Clock(s), k - 1);
      TopsFollow(r, s, k);
    }
  }

  ghost predicate AgreeFrom(r: Word, s: Word, lo: nat)
    requires |r| == |s| == 7
  {
    forall j :: lo <= j < 7 ==> r[j] == s[j]
  }

  lemma ClockShifts(r: Word, j: nat)
    requires |r| == 7 && j < 6
    ensures Clock(r)[j + 1] == if j == 3 then r[3] != r[6] else r[j]
  {
  }

  lemma TopsFollow(r: Word, s: Word, k: nat)
    requires |r| == |s| == 7 && 0 < k <= 7 && r[6] == s[6]
    requires AgreeFrom(Clock(r), Clock(s), 8 - k)
    ensures AgreeFrom(r, s, 7 - k)
  {
    hide Clock;
    forall j | 7 - k <= j < 7 ensures r[j] == s[j] {
      if j < 6 {
        ClockShifts(r, j);
        ClockShifts(s, j);
      }
    }
  }

  /** Two different clock values whiten any header differently, already in its first seven bits. */
  lemma ClocksDiffer(c: nat, d: nat, data: Word)
    requires c < 64 && d < 64 && c != d && |data| >= 7
    ensures Whitened(c, 0, data)[..7] != Whitened(d, 0, data)[..7]
  {
    hide Index, State, Clock, Load, Data, Number, After;
    if Whitened(c, 0, data)[..7] == Whitened(d, 0, data)[..7] {
      var r, s := Load(c), Load(d);
      forall i: nat | i < 7 ensures After(r, i)[6] == After(s, i)[6] {
        StateAfter(c, i);
        StateAfter(d, i);
        assert Whitened(c, 0, data)[..7][i] == Whitened(d, 0, data)[..7][i];
      }
      Observed(r, s, 7);
      assert r == s;
      LoadNumber(c);
      LoadNumber(d);
    }
  }

  // ---- the program's loop over a packed buffer ----

  /** `data` followed by zeros up to n bits. */
  function Padded(data: Word, n: nat): (r: Word)
    requires |data| <= n
    ensures |r| == n
  {
    data + Zeros(n - |data|)
  }

  /** The program uses the six low bits of the clock it is given. */
  function Clk6(clk: nat): (c: nat)
    ensures c < 64 && (clk - c) % 64 == 0
  {
    clk % 64
  }

  lemma NextIndex(i: nat)
    ensures (i % 127 + 1) % 127 == (i + 1) % 127 && Key(i) == (Data(i % 127) == 1)
  {
  }

  lemma NothingWhitened(clk6: nat, offset: nat, n: nat)
    requires clk6 < 64
    ensures Padded(Whitened(clk6, offset, []), n) == Zeros(n)
  {
  }

  lemma WhitenNext(clk6: nat, offset: nat, src: Word, at: nat, n: nat)
    requires clk6 < 64 && at < |src| && at < n
    ensures Padded(Whitened(clk6, offset, src[..at + 1]), n)
         == Padded(Whitened(clk6, offset, src[..at]), n)[at := src[at] != Key(Index(clk6) + offset + at)]
  {
    hide Index, Key;
  }

  /** Whiten `src` from `offset` into a buffer of `capacity` bytes: what does not fit is cut off, the rest
      of the last byte is zero. */
  method XorWhitening(src: Word, clk: nat, offset: nat, capacity: nat) returns (dst: Word)
    ensures |dst| == 8 * (if (|src| + 7) / 8 > capacity then capacity else (|src| + 7) / 8)
    ensures var kept := if |src| <= |dst| then src else src[..|dst|];
            dst == Padded(Whitened(Clk6(clk), offset, kept), |dst|)
  {
    hide Index, Data, Whitened, Padded;
    var clk6 := Clk6(clk);
    var bytes := (|src| + 7) / 8;
    if bytes > capacity {
      bytes := capacity;
    }
    dst := Zeros(8 * bytes);
    NothingWhitened(clk6, offset, |dst|);
    assert src[..0] == [];
    Seeds(clk6);
    var index := (Index(clk6) + offset) % 127;
    var at := 0;
    while at < |src| && at / 8 < bytes
      invariant at <= |src| && at <= 8 * bytes == |dst|
      invariant index == (Index(clk6) + offset + at) % 127
      invariant dst == Padded(Whitened(clk6, offset, src[..at]), |dst|)
    {
      WhitenNext(clk6, offset, src, at, |dst|);
      NextIndex(Index(clk6) + offset + at);
      dst := dst[at := src[at] != (Data(index) == 1)];
      index := (index + 1) % 127;
      at := at + 1;
    }
    if at == |src| {
      assert src[..at] == src;
    }
  }
}
