/** The two sample stages of a channelizer lane, with mixer and filters as opaque step functions: cutting the
    input into calls differently changes nothing. */
module Chunking {
  import opened Arith
  import Dispatcher

  /** Per-sample mixing with the oscillator's state. */
  function MixAll<N, X>(mix: (N, X) -> (N, X), s: N, xs: seq<X>): (r: (N, seq<X>))
    ensures |r.1| == |xs|
  {
    if |xs| == 0 then (s, [])
    else
      var (s1, y) := mix(s, xs[0]);
      var rest := MixAll(mix, s1, xs[1..]);
      (rest.0, [y] + rest.1)
  }

  lemma MixNothing<N, X>(mix: (N, X) -> (N, X), s: N, xs: seq<X>)
    requires |xs| == 0
    ensures MixAll(mix, s, xs) == (s, [])
  {
  }

  lemma WindowsNothing<F, X, Y>(step: (F, seq<X>) -> (F, Y), f: F, d: nat)
    requires d > 0
    ensures Windows(step, f, [], d) == (f, []) && Tail<X>([], d) == []
  {
  }

  /** Whole windows of d samples through a filter, one output each. */
  function Windows<F, X, Y>(step: (F, seq<X>) -> (F, Y), f: F, xs: seq<X>, d: nat): (r: (F, seq<Y>))
    requires d > 0
  {
    if |xs| < d then (f, [])
    else
      var (f1, y) := step(f, xs[..d]);
      var rest := Windows(step, f1, xs[d..], d);
      (rest.0, [y] + rest.1)
  }

  /** What whole windows leave over. */
  function Tail<X>(xs: seq<X>, d: nat): (t: seq<X>)
    requires d > 0
    ensures |t| < d
  {
    if |xs| < d then xs else Tail(xs[d..], d)
  }

  lemma {:induction false} MixSplits<N, X>(mix: (N, X) -> (N, X), s: N, xs: seq<X>, ys: seq<X>)
    ensures var a := MixAll(mix, s, xs);
            var b := MixAll(mix, a.0, ys);
            MixAll(mix, s, xs + ys) == (b.0, a.1 + b.1)
  {
    if |xs| == 0 {
      assert xs + ys == ys;
      assert [] + MixAll(mix, s, ys).1 == MixAll(mix, s, ys).1;
    } else {
      var (s1, y) := mix(s, xs[0]);
      MixSplits(mix, s1, xs[1..], ys);
      assert (xs + ys)[1..] == xs[1..] + ys && (xs + ys)[0] == xs[0];
      var a := MixAll(mix, s1, xs[1..]);
      assert [y] + (a.1 + MixAll(mix, a.0, ys).1) == [y] + a.1 + MixAll(mix, a.0, ys).1;
    }
  }

  lemma {:induction false} WindowsSplit<F, X, Y>(step: (F, seq<X>) -> (F, Y), f: F, xs: seq<X>, ys: seq<X>, d: nat)
    requires d > 0
    ensures var a := Windows(step, f, xs, d);
            var b := Windows(step, a.0, Tail(xs, d) + ys, d);
            Windows(step, f, xs + ys, d) == (b.0, a.1 + b.1)
    ensures Tail(xs + ys, d) == Tail(Tail(xs, d) + ys, d)
  {
    if |xs| >= d {
      var (f1, y) := step(f, xs[..d]);
      WindowsSplit(step, f1, xs[d..], ys, d);
      assert (xs + ys)[..d] == xs[..d] && (xs + ys)[d..] == xs[d..] + ys;
      var a := Windows(step, f1, xs[d..], d);
      var b := Windows(step, a.0, Tail(xs, d) + ys, d);
      assert [y] + (a.1 + b.1) == [y] + a.1 + b.1;
    } else {
      assert [] + Windows(step, f, xs + ys, d).1 == Windows(step, f, xs + ys, d).1;
    }
  }

  /** The rest is the end of the input. */
  lemma {:induction false} TailIsSuffix<X>(xs: seq<X>, d: nat, n: nat)
    requires d > 0 && n * d <= |xs| < n * d + d
    ensures Tail(xs, d) == xs[n * d..]
  {
    if n > 0 {
      OneMore(n - 1, d);
      TailIsSuffix(xs[d..], d, n - 1);
      DropDrop(xs, d, (n - 1) * d);
    }
  }

  lemma DropDrop<X>(xs: seq<X>, d: nat, k: nat)
    requires d + k <= |xs|
    ensures xs[d..][k..] == xs[d + k..]
  {
  }

  /** Every window yields one output. */
  lemma {:induction false} WindowCount<F, X, Y>(step: (F, seq<X>) -> (F, Y), f: F, xs: seq<X>, d: nat)
    requires d > 0
    ensures |xs| == |Windows(step, f, xs, d).1| * d + |Tail(xs, d)|
  {
    if |xs| >= d {
      var (f1, y) := step(f, xs[..d]);
      WindowCount(step, f1, xs[d..], d);
      OneMore(|Windows(step, f1, xs[d..], d).1|, d);
    }
  }

  /** Quotient and remainder by d. */
  lemma LeftOver<F, X, Y>(step: (F, seq<X>) -> (F, Y), f: F, xs: seq<X>, d: nat)
    requires d > 0
    ensures |Windows(step, f, xs, d).1| == |xs| / d && |Tail(xs, d)| == |xs| % d
    ensures (|xs| / d) * d <= |xs| && Tail(xs, d) == xs[(|xs| / d) * d..]
  {
    hide Windows, Tail;
    WindowCount(step, f, xs, d);
    TailIsSuffix(xs, d, |Windows(step, f, xs, d).1|);
    DivUnique(|xs|, d, |Windows(step, f, xs, d).1|, |Tail(xs, d)|);
  }

  lemma OneMore(n: nat, d: nat)
    ensures (1 + n) * d == n * d + d
  {
  }

  // ---- sample by sample ----

  /** The oscillator after i samples. */
  function Oscillator<N, X>(mix: (N, X) -> (N, X), s: N, xs: seq<X>, i: nat): N
    requires i <= |xs|
  {
    if i == 0 then s else mix(Oscillator(mix, s, xs, i - 1), xs[i - 1]).0
  }

  /** Samples k * d to k * d + d - 1. */
  function Window<X>(xs: seq<X>, d: nat, k: nat): (w: seq<X>)
    requires (k + 1) * d <= |xs|
  {
    OneMore(k, d);
    MulMono(d, 0, k);
    xs[k * d..k * d + d]
  }

  /** The filter after k windows. */
  function Filter<F, X, Y>(step: (F, seq<X>) -> (F, Y), f: F, xs: seq<X>, d: nat, k: nat): F
    requires k * d <= |xs|
  {
    if k == 0 then f
    else
      OneMore(k - 1, d);
      step(Filter(step, f, xs, d, k - 1), Window(xs, d, k - 1)).0
  }

  lemma {:induction false} OscillatorShift<N, X>(mix: (N, X) -> (N, X), s: N, xs: seq<X>, i: nat)
    requires 0 < i <= |xs|
    ensures Oscillator(mix, s, xs, i) == Oscillator(mix, mix(s, xs[0]).0, xs[1..], i - 1)
  {
    if i > 1 {
      OscillatorShift(mix, s, xs, i - 1);
    }
  }

  lemma {:induction false} MixedAt<N, X>(mix: (N, X) -> (N, X), s: N, xs: seq<X>, i: nat)
    requires i < |xs|
    ensures MixAll(mix, s, xs).1[i] == mix(Oscillator(mix, s, xs, i), xs[i]).1
  {
    if i > 0 {
      OscillatorShift(mix, s, xs, i);
      MixedAt(mix, mix(s, xs[0]).0, xs[1..], i - 1);
    }
  }

  lemma {:induction false} MixedState<N, X>(mix: (N, X) -> (N, X), s: N, xs: seq<X>)
    ensures MixAll(mix, s, xs).0 == Oscillator(mix, s, xs, |xs|)
  {
    if |xs| > 0 {
      OscillatorShift(mix, s, xs, |xs|);
      MixedState(mix, mix(s, xs[0]).0, xs[1..]);
    }
  }

  lemma WindowShift<X>(xs: seq<X>, d: nat, k: nat)
    requires k > 0 && (k + 1) * d <= |xs|
    ensures k * d <= |xs| - d && Window(xs, d, k) == Window(xs[d..], d, k - 1)
  {
    OneMore(k, d);
    OneMore(k - 1, d);
    MulMono(d, 0, k - 1);
  }

  lemma {:induction false} FilterShift<F, X, Y>(step: (F, seq<X>) -> (F, Y), f: F, xs: seq<X>, d: nat, k: nat)
    requires 0 < k && k * d <= |xs|
    ensures d <= |xs| && (k - 1) * d <= |xs| - d
    ensures Filter(step, f, xs, d, k) == Filter(step, step(f, xs[..d]).0, xs[d..], d, k - 1)
  {
    OneMore(k - 1, d);
    MulMono(d, 0, k - 1);
    if k == 1 {
      assert Window(xs, d, 0) == xs[..d];
    } else {
      FilterShift(step, f, xs, d, k - 1);
      WindowShift(xs, d, k - 1);
    }
  }

  lemma WindowsInside<F, X, Y>(step: (F, seq<X>) -> (F, Y), f: F, xs: seq<X>, d: nat, k: nat)
    requires d > 0 && k < |Windows(step, f, xs, d).1|
    ensures k * d <= (k + 1) * d <= |xs| && d <= |xs|
  {
    WindowCount(step, f, xs, d);
    MulMono(d, k + 1, |Windows(step, f, xs, d).1|);
    OneMore(k, d);
    MulMono(d, 0, k);
  }

  /** Output k is what the filter makes of window k after the k windows before it. */
  lemma {:induction false} WindowsAt<F, X, Y>(step: (F, seq<X>) -> (F, Y), f: F, xs: seq<X>, d: nat, k: nat)
    requires d > 0 && k < |Windows(step, f, xs, d).1|
    ensures k * d <= (k + 1) * d <= |xs|
    ensures Windows(step, f, xs, d).1[k] == step(Filter(step, f, xs, d, k), Window(xs, d, k)).1
  {
    hide Window;
    WindowsInside(step, f, xs, d, k);
    if k == 0 {
      FirstWindow(xs, d);
    } else {
      hide Filter;
      WindowsAt(step, step(f, xs[..d]).0, xs[d..], d, k - 1);
      FilterShift(step, f, xs, d, k);
      WindowShift(xs, d, k);
    }
  }

  lemma FirstWindow<X>(xs: seq<X>, d: nat)
    requires d <= |xs|
    ensures Window(xs, d, 0) == xs[..d]
  {
  }

  // ---- the down-converter ----

  datatype Ddc<N, F, X> = Ddc(nco: N, fir: F, carry: seq<X>)

  /** One call: rotate the input behind the carry, filter whole windows, carry the rest.  With decimation 1
      there is no filter and no carry. */
  function DdcCall<N, F, X>(mix: (N, X) -> (N, X), step: (F, seq<X>) -> (F, X), d: nat, st: Ddc<N, F, X>, xs: seq<X>)
    : (r: (Ddc<N, F, X>, seq<X>))
    requires d > 0
  {
    var m := MixAll(mix, st.nco, xs);
    if d == 1 then (st.(nco := m.0), m.1)
    else
      var w := Windows(step, st.fir, st.carry + m.1, d);
      (Ddc(m.0, w.0, Tail(st.carry + m.1, d)), w.1)
  }

  lemma DdcSplits<N, F, X>(mix: (N, X) -> (N, X), step: (F, seq<X>) -> (F, X), d: nat, st: Ddc<N, F, X>,
                           xs: seq<X>, ys: seq<X>)
    requires d > 0
    ensures var a := DdcCall(mix, step, d, st, xs);
            var b := DdcCall(mix, step, d, a.0, ys);
            DdcCall(mix, step, d, st, xs + ys) == (b.0, a.1 + b.1)
  {
    hide MixAll, Windows, Tail;
    MixSplits(mix, st.nco, xs, ys);
    var m1 := MixAll(mix, st.nco, xs);
    var m2 := MixAll(mix, m1.0, ys);
    if d > 1 {
      WindowsSplit(step, st.fir, st.carry + m1.1, m2.1, d);
      assert st.carry + (m1.1 + m2.1) == st.carry + m1.1 + m2.1;
    }
  }

  function Joined<X>(chunks: seq<seq<X>>): seq<X> {
    if |chunks| == 0 then [] else Joined(chunks[..|chunks| - 1]) + chunks[|chunks| - 1]
  }

  /** One call per chunk. */
  function DdcRun<N, F, X>(mix: (N, X) -> (N, X), step: (F, seq<X>) -> (F, X), d: nat, st: Ddc<N, F, X>,
                           chunks: seq<seq<X>>): (r: (Ddc<N, F, X>, seq<X>))
    requires d > 0
  {
    if |chunks| == 0 then (st, [])
    else
      var a := DdcRun(mix, step, d, st, chunks[..|chunks| - 1]);
      var b := DdcCall(mix, step, d, a.0, chunks[|chunks| - 1]);
      (b.0, a.1 + b.1)
  }

  lemma DdcNothing<N, F, X>(mix: (N, X) -> (N, X), step: (F, seq<X>) -> (F, X), d: nat, st: Ddc<N, F, X>)
    requires d > 0 && |st.carry| < d
    ensures DdcCall(mix, step, d, st, []) == (st, [])
  {
    assert st.carry + [] == st.carry;
  }

  /** For every split of the input into calls, outputs, filter states and carry are those of one call on
      all of it. */
  lemma {:induction false} DdcChunksDoNotMatter<N, F, X>(mix: (N, X) -> (N, X), step: (F, seq<X>) -> (F, X), d: nat,
                                                        st: Ddc<N, F, X>, chunks: seq<seq<X>>)
    requires d > 0 && |st.carry| < d
    ensures DdcRun(mix, step, d, st, chunks) == DdcCall(mix, step, d, st, Joined(chunks))
  {
    if |chunks| == 0 {
      DdcNothing(mix, step, d, st);
    } else {
      hide DdcCall;
      var init, last := chunks[..|chunks| - 1], chunks[|chunks| - 1];
      DdcChunksDoNotMatter(mix, step, d, st, init);
      DdcSplits(mix, step, d, st, Joined(init), last);
    }
  }

  /** The samples of the whole input after mixing, each with the oscillator as the samples before it left it. */
  ghost function Mixed<N, X>(mix: (N, X) -> (N, X), s: N, xs: seq<X>): (m: seq<X>)
    ensures |m| == |xs|
  {
    seq(|xs|, i requires 0 <= i < |xs| => mix(Oscillator(mix, s, xs, i), xs[i]).1)
  }

  /** What a fresh stage puts out, however its input is cut into calls: with decimation 1 the mixed samples, else
      output k is the filter's on mixed samples k * d to k * d + d - 1; mixed samples behind the last whole
      window are carried. */
  lemma DdcOutputs<N, F, X>(mix: (N, X) -> (N, X), step: (F, seq<X>) -> (F, X), d: nat, st: Ddc<N, F, X>,
                            chunks: seq<seq<X>>, k: nat)
    requires d > 0 && st.carry == []
    ensures var r, m := DdcRun(mix, step, d, st, chunks), Mixed(mix, st.nco, Joined(chunks));
            && r.0.nco == Oscillator(mix, st.nco, Joined(chunks), |m|)
            && (d == 1 ==> r.1 == m && r.0.fir == st.fir)
            && (d > 1 && k < |r.1| ==>
                  && k * d <= (k + 1) * d <= |m|
                  && r.1[k] == step(Filter(step, st.fir, m, d, k), Window(m, d, k)).1)
            && (d > 1 ==> |r.1| * d <= |m| && r.0.carry == m[|r.1| * d..])
  {
    hide Windows, MixAll, Oscillator, Window, Filter, DdcRun, Joined, Tail;
    DdcChunksDoNotMatter(mix, step, d, st, chunks);
    var xs := Joined(chunks);
    MixedState(mix, st.nco, xs);
    var m := MixAll(mix, st.nco, xs).1;
    forall i | 0 <= i < |xs| ensures m[i] == mix(Oscillator(mix, st.nco, xs, i), xs[i]).1 {
      MixedAt(mix, st.nco, xs, i);
    }
    assert m == Mixed(mix, st.nco, xs);
    assert st.carry + m == m;
    if d > 1 {
      LeftOver(step, st.fir, m, d);
      if k < |Windows(step, st.fir, m, d).1| {
        WindowsAt(step, st.fir, m, d, k);
      }
    }
  }

  /** From a fresh stage: total / d outputs, total % d samples carried. */
  lemma DdcCounts<N, F, X>(mix: (N, X) -> (N, X), step: (F, seq<X>) -> (F, X), d: nat, st: Ddc<N, F, X>,
                           chunks: seq<seq<X>>)
    requires d > 0 && st.carry == []
    ensures var r := DdcRun(mix, step, d, st, chunks);
            && |r.1| == |Joined(chunks)| / d
            && |r.0.carry| == (if d == 1 then 0 else |Joined(chunks)| % d)
            && |Joined(chunks)| == |r.1| * d + |r.0.carry|
  {
    DdcChunksDoNotMatter(mix, step, d, st, chunks);
    var xs := Joined(chunks);
    var m := MixAll(mix, st.nco, xs).1;
    assert st.carry + m == m;
    hide MixAll, Windows, Tail;
    LeftOver(step, st.fir, m, d);
    DivBounds(|xs|, d);
  }

  /** When calls are contiguous, the base reported for the next call's output is the index of its first
      window's first sample: the start plus d for every output so far. */
  lemma DdcBaseIsFirstSample<N, F, X>(mix: (N, X) -> (N, X), step: (F, seq<X>) -> (F, X), d: nat, st: Ddc<N, F, X>,
                                      chunks: seq<seq<X>>, start: int)
    requires d > 0 && st.carry == []
    ensures var r := DdcRun(mix, step, d, st, chunks);
            var inBase := start + |Joined(chunks)|;
            inBase - |r.0.carry| == start + |r.1| * d
  {
    DdcCounts(mix, step, d, st, chunks);
  }

  /** A call never emits more than a block holds when its input is a block. */
  lemma DdcOutputFits(n: nat, carry: nat, d: nat)
    requires d > 1 && carry < d
    ensures n > 0 ==> (carry + n) / d <= n
  {
    if n > 0 {
      FitsIffBelow(carry + n, d, (carry + n) / d);
      if (carry + n) / d > n {
        MulMono(d, n + 1, (carry + n) / d);
        MulMono(n + 1, 2, d);
        assert (n + 1) * d <= carry + n;
        assert n * d + d <= carry + n;
        MulMono(n, 1, d);
      }
    }
  }

  class DdcStage<N, F, X> {
    const mix: (N, X) -> (N, X)
    const step: (F, seq<X>) -> (F, X)
    const decim: nat
    var nco: N
    var fir: F
    var carry: seq<X>
    var samplesOut: nat

    ghost predicate Valid()
      reads this
    {
      decim > 0 && |carry| < decim
    }

    ghost function State(): Ddc<N, F, X>
      reads this
    {
      Ddc(nco, fir, carry)
    }

    constructor (mix: (N, X) -> (N, X), step: (F, seq<X>) -> (F, X), decim: nat, nco: N, fir: F)
      requires decim > 0
      ensures Valid() && State() == Ddc(nco, fir, []) && samplesOut == 0
      ensures this.mix == mix && this.step == step && this.decim == decim
    {
      this.mix, this.step, this.decim := mix, step, decim;
      this.nco, this.fir, carry, samplesOut := nco, fir, [], 0;
    }

    /** One call on input whose first sample has index `inBase`. */
    method Execute(input: seq<X>, inBase: int) returns (out: seq<X>, outBase: int)
      requires Valid()
      modifies this`nco, this`fir, this`carry, this`samplesOut
      ensures Valid()
      ensures (State(), out) == DdcCall(mix, step, decim, old(State()), input)
      ensures outBase == inBase - |old(carry)| && samplesOut == old(samplesOut) + |out|
    {
      hide MixAll, Windows, Tail;
      if decim == 1 {
        outBase := inBase;
        if |input| == 0 {
          MixNothing(mix, nco, input);
          return [], outBase;
        }
        var m := MixAll(mix, nco, input);
        nco, out := m.0, m.1;
        samplesOut := samplesOut + |input|;
        return;
      }
      outBase := inBase - |carry|;
      if |input| == 0 && |carry| == 0 {
        MixNothing(mix, nco, input);
        assert carry + MixAll(mix, nco, input).1 == [];
        WindowsNothing(step, fir, decim);
        return [], outBase;
      }
      var m := MixAll(mix, nco, input);
      var window := carry + m.1;
      var full, rem := |window| / decim, |window| % decim;
      LeftOver(step, fir, window, decim);
      var w := Windows(step, fir, window, decim);
      nco, fir, out := m.0, w.0, w.1;
      if rem > 0 {
        carry := window[full * decim..];
      } else {
        carry := [];
      }
      samplesOut := samplesOut + full;
    }
  }

  // ---- the polyphase bank ----

  datatype Bank<F, X> = Bank(pfb: F, carry: seq<X>)

  /** One call: every whole window of half a frame's samples gives a frame. */
  function BankCall<F, X>(step: (F, seq<X>) -> (F, seq<X>), m2: nat, st: Bank<F, X>, xs: seq<X>)
    : (r: (Bank<F, X>, seq<seq<X>>))
    requires m2 > 0
  {
    var w := Windows(step, st.pfb, st.carry + xs, m2);
    (Bank(w.0, Tail(st.carry + xs, m2)), w.1)
  }

  function BankRun<F, X>(step: (F, seq<X>) -> (F, seq<X>), m2: nat, st: Bank<F, X>, chunks: seq<seq<X>>)
    : (r: (Bank<F, X>, seq<seq<X>>))
    requires m2 > 0
  {
    if |chunks| == 0 then (st, [])
    else
      var a := BankRun(step, m2, st, chunks[..|chunks| - 1]);
      var b := BankCall(step, m2, a.0, chunks[|chunks| - 1]);
      (b.0, a.1 + b.1)
  }

  lemma BankSplits<F, X>(step: (F, seq<X>) -> (F, seq<X>), m2: nat, st: Bank<F, X>, xs: seq<X>, ys: seq<X>)
    requires m2 > 0
    ensures var a := BankCall(step, m2, st, xs);
            var b := BankCall(step, m2, a.0, ys);
            BankCall(step, m2, st, xs + ys) == (b.0, a.1 + b.1)
  {
    hide Windows, Tail;
    WindowsSplit(step, st.pfb, st.carry + xs, ys, m2);
    assert st.carry + (xs + ys) == st.carry + xs + ys;
  }

  lemma BankNothing<F, X>(step: (F, seq<X>) -> (F, seq<X>), m2: nat, st: Bank<F, X>)
    requires |st.carry| < m2
    ensures BankCall(step, m2, st, []) == (st, [])
  {
    assert st.carry + [] == st.carry;
  }

  /** For every split of the input into calls, frames, filter state and carry are those of one call on all
      of it; from a fresh bank there are total / m2 frames and total % m2 samples carried. */
  lemma {:induction false} BankChunksDoNotMatter<F, X>(step: (F, seq<X>) -> (F, seq<X>), m2: nat, st: Bank<F, X>,
                                                      chunks: seq<seq<X>>)
    requires |st.carry| < m2
    ensures BankRun(step, m2, st, chunks) == BankCall(step, m2, st, Joined(chunks))
    ensures var r := BankRun(step, m2, st, chunks);
            |r.1| == (|st.carry| + |Joined(chunks)|) / m2 && |r.0.carry| == (|st.carry| + |Joined(chunks)|) % m2
  {
    LeftOver(step, st.pfb, st.carry + Joined(chunks), m2);
    if |chunks| == 0 {
      BankNothing(step, m2, st);
    } else {
      hide Windows, Tail;
      var init, last := chunks[..|chunks| - 1], chunks[|chunks| - 1];
      BankChunksDoNotMatter(step, m2, st, init);
      BankSplits(step, m2, st, Joined(init), last);
    }
  }

  /** What a fresh bank puts out, however its input is cut into calls: frame k is the filter's on samples k * m2 to
      k * m2 + m2 - 1. */
  lemma BankFrames<F, X>(step: (F, seq<X>) -> (F, seq<X>), m2: nat, st: Bank<F, X>, chunks: seq<seq<X>>, k: nat)
    requires m2 > 0 && st.carry == []
    ensures var r, xs := BankRun(step, m2, st, chunks), Joined(chunks);
            && |r.1| * m2 <= |xs| && r.0.carry == xs[|r.1| * m2..]
            && (k < |r.1| ==>
                  && k * m2 <= (k + 1) * m2 <= |xs|
                  && r.1[k] == step(Filter(step, st.pfb, xs, m2, k), Window(xs, m2, k)).1)
  {
    hide Windows, Window, Filter, BankRun, Joined, Tail;
    BankChunksDoNotMatter(step, m2, st, chunks);
    var xs := Joined(chunks);
    assert st.carry + xs == xs;
    LeftOver(step, st.pfb, xs, m2);
    if k < |Windows(step, st.pfb, xs, m2).1| {
      WindowsAt(step, st.pfb, xs, m2, k);
    }
  }

  class FilterBank<F, X> {
    const step: (F, seq<X>) -> (F, seq<X>)
    const m2: nat
    var pfb: F
    var carry: seq<X>
    var framesOut: nat

    ghost predicate Valid()
      reads this
    {
      |carry| < m2
    }

    ghost function State(): Bank<F, X>
      reads this
    {
      Bank(pfb, carry)
    }

    constructor (step: (F, seq<X>) -> (F, seq<X>), m2: nat, pfb: F)
      requires m2 > 0
      ensures Valid() && State() == Bank(pfb, []) && framesOut == 0 && this.step == step && this.m2 == m2
    {
      this.step, this.m2 := step, m2;
      this.pfb, carry, framesOut := pfb, [], 0;
    }

    method Execute(input: seq<X>) returns (frames: seq<seq<X>>, baseFrame: nat)
      requires Valid()
      modifies this`pfb, this`carry, this`framesOut
      ensures Valid()
      ensures (State(), frames) == BankCall(step, m2, old(State()), input)
      ensures baseFrame == old(framesOut) && framesOut == old(framesOut) + |frames|
    {
      hide Windows, Tail, Rest;
      frames, baseFrame := [], framesOut;
      if |input| == 0 {
        BankNothing(step, m2, State());
        return;
      }
      ghost var all := carry + input;
      ghost var whole := Windows(step, pfb, all, m2);
      RestStart(step, pfb, all, m2);
      var consumed := 0;
      if |carry| > 0 {
        var need := m2 - |carry|;
        if |input| < need {
          RestDone(whole, step, pfb, all, m2, frames);
          carry := carry + input;
          return;
        }
        assert all[..m2] == carry + input[..need] && all[m2..] == input[need..];
        RestNext(whole, step, pfb, all, m2, frames);
        var r := step(pfb, carry + input[..need]);
        pfb, frames := r.0, frames + [r.1];
        consumed, carry := need, [];
      } else {
        assert all == input == input[0..];
      }
      while consumed + m2 <= |input|
        invariant consumed <= |input| && carry == [] && framesOut == baseFrame
        invariant Rest(whole, step, pfb, input[consumed..], m2, frames)
        invariant Tail(all, m2) == Tail(input[consumed..], m2)
      {
        RestNext(whole, step, pfb, input[consumed..], m2, frames);
        assert input[consumed..][..m2] == input[consumed..consumed + m2];
        assert input[consumed..][m2..] == input[consumed + m2..];
        var r := step(pfb, input[consumed..consumed + m2]);
        pfb, frames := r.0, frames + [r.1];
        consumed := consumed + m2;
      }
      RestDone(whole, step, pfb, input[consumed..], m2, frames);
      if consumed < |input| {
        carry := input[consumed..];
      }
      framesOut := framesOut + |frames|;
    }
  }

  /** `whole` is what has been emitted followed by what the filter in state f makes of xs. */
  ghost predicate Rest<F, X>(whole: (F, seq<seq<X>>), step: (F, seq<X>) -> (F, seq<X>), f: F, xs: seq<X>, m2: nat,
                             frames: seq<seq<X>>)
    requires m2 > 0
  {
    var w := Windows(step, f, xs, m2);
    whole == (w.0, frames + w.1)
  }

  lemma RestStart<F, X>(step: (F, seq<X>) -> (F, seq<X>), f: F, xs: seq<X>, m2: nat)
    requires m2 > 0
    ensures Rest(Windows(step, f, xs, m2), step, f, xs, m2, [])
  {
    var w := Windows(step, f, xs, m2);
    assert [] + w.1 == w.1;
  }

  lemma RestDone<F, X>(whole: (F, seq<seq<X>>), step: (F, seq<X>) -> (F, seq<X>), f: F, xs: seq<X>, m2: nat,
                       frames: seq<seq<X>>)
    requires |xs| < m2 && Rest(whole, step, f, xs, m2, frames)
    ensures whole == (f, frames) && Tail(xs, m2) == xs
  {
    assert frames + [] == frames;
  }

  lemma RestNext<F, X>(whole: (F, seq<seq<X>>), step: (F, seq<X>) -> (F, seq<X>), f: F, xs: seq<X>, m2: nat,
                       frames: seq<seq<X>>)
    requires 0 < m2 <= |xs| && Rest(whole, step, f, xs, m2, frames)
    ensures var r := step(f, xs[..m2]); Rest(whole, step, r.0, xs[m2..], m2, frames + [r.1])
    ensures Tail(xs, m2) == Tail(xs[m2..], m2)
  {
    var r := step(f, xs[..m2]);
    var w := Windows(step, r.0, xs[m2..], m2);
    assert frames + ([r.1] + w.1) == frames + [r.1] + w.1;
  }

  // ---- feeding the bank in sub-chunks ----

  const BLOCK_SAMPLES: nat := Dispatcher.BLOCK_SAMPLES

  /** Frames a lane may produce per call. */
  function MaxFrames(m: nat): (f: nat)
    requires m > 0
    ensures f >= 4 && (f == 4 || f + 2 <= BLOCK_SAMPLES / m)
  {
    var q := BLOCK_SAMPLES / m;
    var x := if q > 2 then q - 2 else 1;
    var y := x / 4 * 4;
    if y < 4 then 4 else y
  }

  /** The most frames, in fours and at least four, that leave room for two more in a block. */
  lemma MaxFramesIs(m: nat)
    requires m > 0
    ensures var f := MaxFrames(m);
            && f % 4 == 0 && f >= 4 && (f > 4 ==> (f + 2) * m <= 262144) && (f + 6) * m > 262144
  {
    var f := MaxFrames(m);
    DivBounds(BLOCK_SAMPLES, m);
    FitsIffBelow(BLOCK_SAMPLES, m, f + 2);
    FitsIffBelow(BLOCK_SAMPLES, m, f + 6);
  }

  /** Input samples fed per call. */
  function MaxIn(m: nat, m2: nat): nat
    requires m > 0
  {
    MaxFrames(m) * m2
  }

  /** At most that many frames come out of a call, whatever is carried. */
  lemma FramesPerCall(m: nat, m2: nat, carry: nat, n: nat)
    requires m > 0 && carry < m2 && n <= MaxIn(m, m2)
    ensures (carry + n) / m2 <= MaxFrames(m)
    ensures carry == 0 && n == MaxIn(m, m2) ==> n / m2 == MaxFrames(m)
  {
    DivUnique(MaxFrames(m) * m2, m2, MaxFrames(m), 0);
    hide MaxFrames;
    var f := MaxFrames(m);
    FitsIffBelow(carry + n, m2, f + 1);
    assert (f + 1) * m2 == f * m2 + m2;
  }

  /** The frames of a call fit an output block exactly when four frames do: the count is rounded up to
      four for a very wide bank. */
  lemma FramesFitBlock(m: nat)
    requires m > 0
    ensures MaxFrames(m) * m <= BLOCK_SAMPLES <==> 4 * m <= BLOCK_SAMPLES
  {
    var f := MaxFrames(m);
    hide MaxFrames;
    MulMono(m, 4, f);
    FitsIffBelow(BLOCK_SAMPLES, m, f);
    FitsIffBelow(BLOCK_SAMPLES, m, 4);
  }

  /** An output block of the bank worker: frames, and the base it is stamped with. */
  datatype Output<X> = Output(frames: seq<seq<X>>, base: int)

  function AllFrames<X>(blocks: seq<Output<X>>): seq<seq<X>> {
    if |blocks| == 0 then [] else AllFrames(blocks[..|blocks| - 1]) + blocks[|blocks| - 1].frames
  }

  /** Every block holds at most MaxFrames frames and is stamped with its sub-chunk's place in the input. */
  ghost predicate WellFormed<X>(blocks: seq<Output<X>>, m: nat, m2: nat, base: int, scale: nat)
    requires m > 0
  {
    forall i :: 0 <= i < |blocks| ==>
      |blocks[i].frames| <= MaxFrames(m) && blocks[i].base == base + i * MaxIn(m, m2) * scale
  }

  /** The bank has been fed the first `done` samples, and `blocks` hold all it made of them. */
  ghost predicate Fed<F, X>(step: (F, seq<X>) -> (F, seq<X>), m2: nat, was: Bank<F, X>, now: Bank<F, X>,
                            blocks: seq<Output<X>>, input: seq<X>, done: nat)
    requires m2 > 0 && done <= |input|
  {
    (now, AllFrames(blocks)) == BankCall(step, m2, was, input[..done])
  }

  lemma FedMore<F, X>(step: (F, seq<X>) -> (F, seq<X>), m2: nat, was: Bank<F, X>, now: Bank<F, X>, next: Bank<F, X>,
                      blocks: seq<Output<X>>, b: Output<X>, input: seq<X>, done: nat, n: nat)
    requires m2 > 0 && done + n <= |input| && Fed(step, m2, was, now, blocks, input, done)
    requires (next, b.frames) == BankCall(step, m2, now, input[done..done + n])
    ensures Fed(step, m2, was, next, blocks + [b], input, done + n)
  {
    hide BankCall;
    BankSplits(step, m2, was, input[..done], input[done..done + n]);
    assert input[..done + n] == input[..done] + input[done..done + n];
    assert (blocks + [b])[..|blocks|] == blocks;
  }

  /** k sub-chunks, full ones but for the last, are the first `fed` of `len` samples. */
  ghost predicate Paced(k: nat, maxIn: nat, len: nat, fed: nat) {
    && (fed == k * maxIn || (fed == len <= k * maxIn))
    && ((k - 1) * maxIn < fed || k == 0)
  }

  lemma PacedMore(k: nat, maxIn: nat, len: nat, fed: nat, n: nat)
    requires Paced(k, maxIn, len, fed) && fed < len && maxIn > 0
    requires n == if len - fed > maxIn then maxIn else len - fed
    ensures Paced(k + 1, maxIn, len, fed + n)
  {
    assert (k + 1) * maxIn == k * maxIn + maxIn;
  }

  lemma PacedEnd(k: nat, maxIn: nat, len: nat, fed: nat, room: nat)
    requires Paced(k, maxIn, len, fed) && fed <= len && k <= room && (fed == len || k == room)
    ensures fed == if room * maxIn < len then room * maxIn else len
    ensures (k - 1) * maxIn < fed || k == 0
  {
    MulMono(maxIn, k, room);
  }

  lemma NothingPaced<X>(maxIn: nat, len: nat, m: nat, m2: nat, base: int, scale: nat)
    requires m > 0
    ensures Paced(0, maxIn, len, 0) && WellFormed<X>([], m, m2, base, scale)
  {
  }

  lemma WellFormedMeans<X>(blocks: seq<Output<X>>, m: nat, m2: nat, base: int, scale: nat)
    requires m > 0 && WellFormed(blocks, m, m2, base, scale)
    ensures forall i :: 0 <= i < |blocks| ==> |blocks[i].frames| <= MaxFrames(m)
    ensures forall i :: 0 <= i < |blocks| ==> blocks[i].base == base + i * MaxIn(m, m2) * scale
  {
  }

  lemma WellFormedMore<X>(blocks: seq<Output<X>>, b: Output<X>, m: nat, m2: nat, base: int, scale: nat)
    requires m > 0 && WellFormed(blocks, m, m2, base, scale)
    requires |b.frames| <= MaxFrames(m) && b.base == base + |blocks| * MaxIn(m, m2) * scale
    ensures WellFormed(blocks + [b], m, m2, base, scale)
  {
    hide MaxFrames, MaxIn;
  }

  /** The worker's loop over one input block.  `room` is how many output blocks it can get before it is
      refused one: in live mode the rest of the input block is then dropped; without refusal the frames of
      all sub-chunks are those of the block as a whole. */
  method FeedBlock<F, X>(bank: FilterBank<F, X>, input: seq<X>, base: int, m: nat, scale: nat, room: nat)
    returns (blocks: seq<Output<X>>, fed: nat)
    requires bank.Valid() && m > 0
    modifies bank`pfb, bank`carry, bank`framesOut
    ensures bank.Valid()
    ensures fed == if room * MaxIn(m, bank.m2) < |input| then room * MaxIn(m, bank.m2) else |input|
    ensures (bank.State(), AllFrames(blocks)) == BankCall(bank.step, bank.m2, old(bank.State()), input[..fed])
    ensures |blocks| <= room
    ensures forall i :: 0 <= i < |blocks| ==> |blocks[i].frames| <= MaxFrames(m)
    ensures forall i :: 0 <= i < |blocks| ==> blocks[i].base == base + i * MaxIn(m, bank.m2) * scale
    ensures (|blocks| - 1) * MaxIn(m, bank.m2) < fed || blocks == []
  {
    hide BankCall, MaxFrames, AllFrames;
    var maxIn := MaxIn(m, bank.m2);
    MaxInPositive(m, bank.m2);
    hide MaxIn, Paced, WellFormed;
    blocks, fed := [], 0;
    NothingFed(bank.step, bank.m2, bank.State(), input);
    assert Paced(0, maxIn, |input|, 0) && WellFormed<X>([], m, bank.m2, base, scale) by {
      NothingPaced<X>(maxIn, |input|, m, bank.m2, base, scale);
    }
    while fed < |input| && |blocks| < room
      invariant fed <= |input| && |blocks| <= room && bank.Valid()
      invariant Paced(|blocks|, maxIn, |input|, fed)
      invariant Fed(bank.step, bank.m2, old(bank.State()), bank.State(), blocks, input, fed)
      invariant WellFormed(blocks, m, bank.m2, base, scale)
    {
      var n := |input| - fed;
      if n > maxIn {
        n := maxIn;
      }
      FramesOfCall(bank.step, bank.m2, bank.State(), input[fed..fed + n]);
      FramesPerCall(m, bank.m2, |bank.carry|, n);
      ghost var now := bank.State();
      var frames, _ := bank.Execute(input[fed..fed + n]);
      var next := Output(frames, base + fed * scale);
      FedMore(bank.step, bank.m2, old(bank.State()), now, bank.State(), blocks, next, input, fed, n);
      PacedMore(|blocks|, maxIn, |input|, fed, n);
      WellFormedMore(blocks, next, m, bank.m2, base, scale);
      blocks := blocks + [next];
      fed := fed + n;
    }
    PacedEnd(|blocks|, maxIn, |input|, fed, room);
    WellFormedMeans(blocks, m, bank.m2, base, scale);
  }

  lemma MaxInPositive(m: nat, m2: nat)
    requires m > 0 && m2 > 0
    ensures MaxIn(m, m2) > 0
  {
    MulMono(m2, 1, MaxFrames(m));
  }

  lemma NothingFed<F, X>(step: (F, seq<X>) -> (F, seq<X>), m2: nat, st: Bank<F, X>, input: seq<X>)
    requires |st.carry| < m2
    ensures Fed(step, m2, st, st, [], input, 0)
  {
    BankNothing(step, m2, st);
    assert input[..0] == [];
  }

  lemma FramesOfCall<F, X>(step: (F, seq<X>) -> (F, seq<X>), m2: nat, st: Bank<F, X>, xs: seq<X>)
    requires m2 > 0
    ensures |BankCall(step, m2, st, xs).1| == (|st.carry| + |xs|) / m2
  {
    LeftOver(step, st.pfb, st.carry + xs, m2);
  }
}
