/** Tracking the central's clock on an acquired BR/EDR link: which of five neighbouring clock values a clean
    header validates, and what that does to the tracked offset and to the lock. */
module ClockTracker {
  import opened Bits
  import opened BredrHeader
  import opened BredrClocks
  import BredrWhitening

  /** The deltas around the tracked clock, in the order they are tried. */
  function Tried(k: nat): (delta: int)
    requires k < 5
    ensures -2 <= delta <= 2
  {
    match k case 0 => 0 case 1 => 1 case 2 => -1 case 3 => 2 case _ => -2
  }

  function Candidate(base: nat, delta: int): (c: nat)
    requires base < 64 && -2 <= delta <= 2
    ensures c < 64
  {
    (base + delta + 64) % 64
  }

  datatype Outcome = Miss | Hit(delta: int) {
    predicate Drift() {
      Hit? && delta != 0
    }

    ghost predicate Valid() {
      Hit? ==> -2 <= delta <= 2
    }
  }

  /** The first delta from the k-th on whose clock value passes the clean header check. */
  function FirstHit(raw: Word, uap: Word, base: nat, k: nat): (o: Outcome)
    requires |raw| == AIR_BITS && |uap| == 8 && base < 64 && k <= 5
    ensures o.Valid()
    decreases 5 - k
  {
    if k == 5 then Miss
    else if HecOkClean(raw, uap, Candidate(base, Tried(k))) then Hit(Tried(k))
    else FirstHit(raw, uap, base, k + 1)
  }

  method FindHit(raw: Word, uap: Word, base: nat) returns (found: bool, hitDelta: int)
    requires |raw| == AIR_BITS && |uap| == 8 && base < 64
    ensures FirstHit(raw, uap, base, 0) == if found then Hit(hitDelta) else Miss
  {
    hide HecOkClean, Candidate, Tried;
    hitDelta, found := 0, false;
    var k := 0;
    while k < 5
      invariant k <= 5 && !found
      invariant FirstHit(raw, uap, base, 0) == FirstHit(raw, uap, base, k)
    {
      if HecOkClean(raw, uap, Candidate(base, Tried(k))) {
        return true, Tried(k);
      }
      k := k + 1;
    }
  }

  datatype Track = Track(offset: int, candidate: int, confidence: int, known: bool)

  /** One header packet on a locked link. */
  function TrackStep(t: Track, o: Outcome): Track {
    match o
    case Miss =>
      var c := if t.confidence > 0 then t.confidence - 1 else t.confidence;
      Track(t.offset, 0, c, t.known && c != 0)
    case Hit(delta) =>
      var up := if t.confidence < 5 then t.confidence + 1 else t.confidence;
      if delta == 0 then Track(t.offset, 0, up, true)
      else if t.candidate == 0 then t.(candidate := delta)
      else if t.candidate == delta then Track((t.offset + delta + 64) % 64, 0, up, true)
      else t.(candidate := 0)
  }

  class Tracker {
    var uap: Word
    var clockOffset: int
    var driftCandidate: int
    var trackingState: int
    var clkKnown: bool

    ghost predicate Valid()
      reads this
    {
      |uap| == 8 && 0 <= clockOffset < 64
    }

    ghost function State(): Track
      reads this
    {
      Track(clockOffset, driftCandidate, trackingState, clkKnown)
    }

    /** Record an acquired UAP and clock. */
    constructor SetUap(u: Word, centralClk: nat, rxClk: nat)
      requires |u| == 8 && centralClk < 64
      ensures Valid() && uap == u && Locked(State()) && State().candidate == 0 && State().confidence == 1
      ensures (rxClk + clockOffset) % 64 == centralClk
    {
      uap := u;
      clockOffset := (centralClk - rxClk) % 64;
      driftCandidate, trackingState, clkKnown := 0, 1, true;
    }

    /** A header packet `raw` received at `rxClk` while the clock is known. */
    method RecoverClockDrift(raw: Word, rxClk: nat) returns (ok: bool)
      requires Valid() && |raw| == AIR_BITS
      modifies this`clockOffset, this`driftCandidate, this`trackingState, this`clkKnown
      ensures Valid()
      ensures var o := FirstHit(raw, uap, (rxClk + old(clockOffset)) % 64, 0);
              State() == TrackStep(old(State()), o) && ok == o.Hit?
    {
      hide FirstHit;
      var found, hitDelta := FindHit(raw, uap, (rxClk + clockOffset) % 64);
      if !found {
        driftCandidate := 0;
        if trackingState > 0 {
          trackingState := trackingState - 1;
        }
        if trackingState == 0 {
          clkKnown := false;
        }
        return false;
      }
      if hitDelta == 0 {
        driftCandidate := 0;
        if trackingState < 5 {
          trackingState := trackingState + 1;
        }
        clkKnown := true;
        return true;
      }
      if driftCandidate == 0 {
        driftCandidate := hitDelta;
        return true;
      }
      if driftCandidate == hitDelta {
        clockOffset := (clockOffset + hitDelta + 64) % 64;
        driftCandidate := 0;
        if trackingState < 5 {
          trackingState := trackingState + 1;
        }
        clkKnown := true;
        return true;
      }
      driftCandidate := 0;
      return true;
    }
  }

  // ---- runs ----

  ghost predicate Locked(t: Track) {
    0 <= t.offset < 64 && 1 <= t.confidence <= 5 && t.known
  }

  /** Offset in 0..63, confidence in 0..5, known exactly while confidence is positive. */
  ghost predicate Sound(t: Track) {
    0 <= t.offset < 64 && 0 <= t.confidence <= 5 && (t.known <==> t.confidence > 0)
  }

  ghost predicate AllValid(outs: seq<Outcome>) {
    forall i :: 0 <= i < |outs| ==> outs[i].Valid()
  }

  /** The tracker is consulted only while the clock is known. */
  ghost function Run(t: Track, outs: seq<Outcome>): Track {
    if |outs| == 0 then t
    else
      var u := Run(t, outs[..|outs| - 1]);
      if u.known then TrackStep(u, outs[|outs| - 1]) else u
  }

  /** How many of the latest outcomes in a row were drift hits. */
  ghost function Streak(outs: seq<Outcome>): nat {
    if |outs| == 0 || !outs[|outs| - 1].Drift() then 0 else 1 + Streak(outs[..|outs| - 1])
  }

  /** The latest outcome completes a pair: drift hits are paired off from the start of their streak, and
      this pair agrees. */
  ghost predicate Confirmed(outs: seq<Outcome>) {
    && |outs| >= 2 && Streak(outs) > 0 && Streak(outs) % 2 == 0
    && outs[|outs| - 1] == outs[|outs| - 2]
  }

  /** The suspicion on file is the unpaired drift hit, if there is one. */
  lemma {:induction false} SuspicionIsUnpaired(t: Track, outs: seq<Outcome>)
    requires Locked(t) && t.candidate == 0 && Run(t, outs).known && AllValid(outs)
    ensures Run(t, outs).candidate == if Streak(outs) % 2 == 1 then outs[|outs| - 1].delta else 0
    ensures Sound(Run(t, outs))
  {
    if |outs| > 0 {
      var init := outs[..|outs| - 1];
      assert outs[|outs| - 1].Valid();
      SuspicionIsUnpaired(t, init);
    }
  }

  /** Whatever the outcomes, the state stays sound. */
  lemma {:induction false} RunSound(t: Track, outs: seq<Outcome>)
    requires Locked(t) && t.candidate == 0 && AllValid(outs)
    ensures Sound(Run(t, outs))
  {
    if |outs| > 0 {
      var init := outs[..|outs| - 1];
      RunSound(t, init);
      assert outs[|outs| - 1].Valid();
    }
  }

  lemma StepMoves(u: Track, o: Outcome)
    requires Sound(u) && o.Valid()
    ensures var pair := o.Drift() && u.candidate == o.delta;
            && (TrackStep(u, o).offset != u.offset <==> pair)
            && (pair ==> TrackStep(u, o).offset == (u.offset + o.delta + 64) % 64)
  {
  }

  /** The offset moves exactly at a confirmed pair, by its delta. */
  lemma OffsetMoves(t: Track, outs: seq<Outcome>)
    requires Locked(t) && t.candidate == 0 && AllValid(outs) && |outs| > 0
    requires Run(t, outs[..|outs| - 1]).known
    ensures var before, after := Run(t, outs[..|outs| - 1]).offset, Run(t, outs).offset;
            && (after != before <==> Confirmed(outs))
            && (Confirmed(outs) ==> after == (before + outs[|outs| - 1].delta + 64) % 64)
  {
    hide TrackStep, Confirmed, Streak, Sound, Locked, Run, Outcome.Drift;
    var init, last := outs[..|outs| - 1], outs[|outs| - 1];
    assert last.Valid();
    SuspicionIsUnpaired(t, init);
    StepMoves(Run(t, init), last);
    ConfirmedMeans(outs);
    RunNext(t, outs);
    DriftNonzero(last);
    if |init| > 0 {
      DriftNonzero(init[|init| - 1]);
    }
  }

  lemma RunNext(t: Track, outs: seq<Outcome>)
    requires |outs| > 0 && Run(t, outs[..|outs| - 1]).known
    ensures Run(t, outs) == TrackStep(Run(t, outs[..|outs| - 1]), outs[|outs| - 1])
  {
  }

  lemma DriftNonzero(o: Outcome)
    ensures o.Drift() ==> o.Hit? && o.delta != 0
  {
  }

  /** A pair completes when the unpaired hit before the latest outcome is the same. */
  lemma ConfirmedMeans(outs: seq<Outcome>)
    requires |outs| > 0
    ensures var init, last := outs[..|outs| - 1], outs[|outs| - 1];
            && (Streak(init) % 2 == 1 ==> init != [] && init[|init| - 1].Drift())
            && (Confirmed(outs) <==> last.Drift() && Streak(init) % 2 == 1 && init[|init| - 1] == last)
  {
    var init := outs[..|outs| - 1];
    if |init| > 0 {
      assert init[|init| - 1] == outs[|outs| - 2];
    }
  }

  /** The walk of the evidence alone: up to 5 on a base hit or a confirmed pair, down on a miss. */
  ghost function Walk(c: int, outs: seq<Outcome>): int {
    if |outs| == 0 then c
    else
      var w := Walk(c, outs[..|outs| - 1]);
      var last := outs[|outs| - 1];
      if last.Miss? then w - 1
      else if (last.delta == 0 || Confirmed(outs)) && w < 5 then w + 1
      else w
  }

  ghost predicate StaysPositive(c: int, outs: seq<Outcome>) {
    forall n :: 0 <= n <= |outs| ==> Walk(c, outs[..n]) > 0
  }

  /** The lock is held exactly as long as the walk has not touched zero, and until then its value is the
      confidence. */
  lemma {:induction false} LockIsWalk(t: Track, outs: seq<Outcome>)
    requires Locked(t) && t.candidate == 0 && AllValid(outs)
    ensures Run(t, outs).known <==> StaysPositive(t.confidence, outs)
    ensures Run(t, outs).known ==> Run(t, outs).confidence == Walk(t.confidence, outs)
    ensures Sound(Run(t, outs))
  {
    RunSound(t, outs);
    if |outs| == 0 {
      assert outs[..0] == outs;
    } else {
      var init := outs[..|outs| - 1];
      LockIsWalk(t, init);
      PrefixesPositive(t.confidence, outs);
      if Run(t, init).known {
        SuspicionIsUnpaired(t, init);
        assert outs[|outs| - 1].Valid();
        if |init| > 0 {
          assert init[|init| - 1] == outs[|outs| - 2];
        }
      }
    }
  }

  lemma PrefixesPositive(c: int, outs: seq<Outcome>)
    requires |outs| > 0
    ensures StaysPositive(c, outs) <==> StaysPositive(c, outs[..|outs| - 1]) && Walk(c, outs) > 0
  {
    var init := outs[..|outs| - 1];
    assert outs[..|outs|] == outs;
    forall n | 0 <= n <= |init| ensures init[..n] == outs[..n] {
    }
    if StaysPositive(c, init) && Walk(c, outs) > 0 {
      forall n | 0 <= n <= |outs| ensures Walk(c, outs[..n]) > 0 {
        if n < |outs| {
          assert Walk(c, init[..n]) > 0;
        }
      }
    }
    if StaysPositive(c, outs) {
      forall n | 0 <= n <= |init| ensures Walk(c, init[..n]) > 0 {
        assert Walk(c, outs[..n]) > 0;
      }
    }
  }

  // ---- which headers hit ----

  /** The header is exactly what a transmitter with this UAP sends `delta` clocks off the base. */
  ghost predicate SentAt(raw: Word, uap: Word, base: nat, delta: int)
    requires |raw| == 54 && |uap| == 8 && base < 64
  {
    exists h: Header :: h.Valid() && raw == OnAir(h, uap, (base + delta) % 64)
  }

  /** e is tried before d: smaller deltas first, and of two that differ in sign the positive one. */
  predicate Before(e: int, d: int) {
    var x, y := if e < 0 then -e else e, if d < 0 then -d else d;
    x < y || (x == y && e > d)
  }

  lemma CandidateHits(raw: Word, uap: Word, base: nat, delta: int)
    requires |raw| == AIR_BITS && |uap| == 8 && base < 64 && -2 <= delta <= 2
    ensures HecOkClean(raw, uap, Candidate(base, delta)) <==> SentAt(raw, uap, base, delta)
  {
    hide HecOkClean, OnAir;
    assert Candidate(base, delta) == (base + delta) % 64;
    CleanExact(raw, uap, Candidate(base, delta));
  }

  /** Whatever header arrives: a delta is reported exactly when the header is what is sent at that delta and at
      none tried before it; a header that fits none of the five is a miss. */
  lemma HitsExactly(raw: Word, uap: Word, base: nat, delta: int)
    requires |raw| == 54 && |uap| == 8 && base < 64
    ensures var o := FirstHit(raw, uap, base, 0);
            && (o == Hit(delta) <==>
                  -2 <= delta <= 2 && SentAt(raw, uap, base, delta)
                  && forall e :: -2 <= e <= 2 && Before(e, delta) ==> !SentAt(raw, uap, base, e))
            && (o.Miss? <==> forall e :: -2 <= e <= 2 ==> !SentAt(raw, uap, base, e))
  {
    hide HecOkClean, OnAir, SentAt, Candidate;
    CandidateHits(raw, uap, base, 0);
    CandidateHits(raw, uap, base, 1);
    CandidateHits(raw, uap, base, -1);
    CandidateHits(raw, uap, base, 2);
    CandidateHits(raw, uap, base, -2);
    FiveTrials(raw, uap, base);
  }

  lemma FiveTrials(raw: Word, uap: Word, base: nat)
    requires |raw| == AIR_BITS && |uap| == 8 && base < 64
    ensures FirstHit(raw, uap, base, 0) ==
              if HecOkClean(raw, uap, Candidate(base, 0)) then Hit(0)
              else if HecOkClean(raw, uap, Candidate(base, 1)) then Hit(1)
              else if HecOkClean(raw, uap, Candidate(base, -1)) then Hit(-1)
              else if HecOkClean(raw, uap, Candidate(base, 2)) then Hit(2)
              else if HecOkClean(raw, uap, Candidate(base, -2)) then Hit(-2)
              else Miss
  {
    hide HecOkClean, Candidate;
    assert FirstHit(raw, uap, base, 5) == Miss;
    assert FirstHit(raw, uap, base, 4) == if HecOkClean(raw, uap, Candidate(base, -2)) then Hit(-2) else Miss;
    assert FirstHit(raw, uap, base, 3)
        == if HecOkClean(raw, uap, Candidate(base, 2)) then Hit(2) else FirstHit(raw, uap, base, 4);
    assert FirstHit(raw, uap, base, 2)
        == if HecOkClean(raw, uap, Candidate(base, -1)) then Hit(-1) else FirstHit(raw, uap, base, 3);
    assert FirstHit(raw, uap, base, 1)
        == if HecOkClean(raw, uap, Candidate(base, 1)) then Hit(1) else FirstHit(raw, uap, base, 2);
  }

  /** A header in which the repetition code overruled any bit is a miss. */
  lemma DamagedMisses(raw: Word, uap: Word, base: nat, k: nat)
    requires |raw| == 54 && |uap| == 8 && base < 64 && k < 18
    requires !(raw[3 * k] == raw[3 * k + 1] == raw[3 * k + 2])
    ensures FirstHit(raw, uap, base, 0) == Miss
  {
    hide OnAir, FirstHit, Checked, BredrWhitening.Whitened;
    HitsExactly(raw, uap, base, 0);
    forall e | -2 <= e <= 2 ensures !SentAt(raw, uap, base, e) {
      if SentAt(raw, uap, base, e) {
        var h: Header :| h.Valid() && raw == OnAir(h, uap, (base + e) % 64);
        TriplesAgree(h, uap, (base + e) % 64, k);
        assert false;
      }
    }
  }

  lemma TriplesAgree(h: Header, uap: Word, clk6: nat, k: nat)
    requires h.Valid() && |uap| == 8 && clk6 < 64 && k < 18
    ensures var raw := OnAir(h, uap, clk6); raw[3 * k] == raw[3 * k + 1] == raw[3 * k + 2]
  {
    hide Checked, BredrWhitening.Whitened;
  }

  // ---- against a transmitter ----

  /** On a clean header sent at clock value c, the tracker reports the first tried delta that lands on c or
      on its complement. */
  lemma {:induction false} CleanOutcome(h: Header, uap: Word, c: nat, base: nat, k: nat)
    requires h.Valid() && |uap| == 8 && c < 64 && base < 64 && k <= 5
    ensures FirstHit(OnAir(h, uap, c), uap, base, k) == Nearest(c, base, k)
    decreases 5 - k
  {
    hide HecOkClean, OnAir, Candidate, Tried;
    if k < 5 {
      TrialAccepts(h, uap, c, Candidate(base, Tried(k)));
      CleanOutcome(h, uap, c, base, k + 1);
    }
  }

  ghost function Nearest(c: nat, base: nat, k: nat): Outcome
    requires c < 64 && base < 64 && k <= 5
    decreases 5 - k
  {
    if k == 5 then Miss
    else if Candidate(base, Tried(k)) == c || Candidate(base, Tried(k)) == 63 - c then Hit(Tried(k))
    else Nearest(c, base, k + 1)
  }

  /** While the tracked offset is right, every clean header confirms it. */
  lemma RightOffsetHits(h: Header, uap: Word, base: nat)
    requires h.Valid() && |uap| == 8 && base < 64
    ensures FirstHit(OnAir(h, uap, base), uap, base, 0) == Hit(0)
  {
    hide HecOkClean, OnAir;
    CleanOutcome(h, uap, base, base, 0);
  }

  /** A drift of at most two is reported as it is, unless an earlier trial lands on the complement. */
  ghost predicate Masked(base: nat, delta: int) {
    match delta
    case 1 => base == 31 || base == 63
    case -1 => base == 0 || base == 32
    case 2 => base == 30 || base == 62 || base == 31 || base == 63
    case -2 => base == 0 || base == 32 || base == 1 || base == 33
    case _ => false
  }

  lemma DriftReported(h: Header, uap: Word, base: nat, delta: int)
    requires h.Valid() && |uap| == 8 && base < 64 && -2 <= delta <= 2
    ensures FirstHit(OnAir(h, uap, Candidate(base, delta)), uap, base, 0) == Hit(delta) <==> !Masked(base, delta)
  {
    hide HecOkClean, OnAir, FirstHit;
    var c := Candidate(base, delta);
    CleanOutcome(h, uap, c, base, 0);
    NearestReported(base, delta);
  }

  lemma CandidateIs(base: nat, delta: int)
    requires base < 64 && -2 <= delta <= 2
    ensures var s := base + delta;
            Candidate(base, delta) == if s < 0 then s + 64 else if s >= 64 then s - 64 else s
  {
  }

  lemma NearestReported(base: nat, delta: int)
    requires base < 64 && -2 <= delta <= 2
    ensures Nearest(Candidate(base, delta), base, 0) == Hit(delta) <==> !Masked(base, delta)
  {
    hide Candidate;
    CandidateIs(base, 0);
    CandidateIs(base, 1);
    CandidateIs(base, -1);
    CandidateIs(base, 2);
    CandidateIs(base, -2);
  }

  /** Two clean headers in a row whose true clock is off by the same unmasked amount: the offset moves to the
      transmitter's, and the lock is not weakened. */
  lemma DriftCorrected(t: Track, uap: Word, delta: int, h1: Header, rx1: nat, h2: Header, rx2: nat)
    requires Locked(t) && t.candidate == 0 && -2 <= delta <= 2 && delta != 0 && |uap| == 8 && h1.Valid() && h2.Valid()
    requires !Masked((rx1 + t.offset) % 64, delta) && !Masked((rx2 + t.offset) % 64, delta)
    ensures var b1, b2 := (rx1 + t.offset) % 64, (rx2 + t.offset) % 64;
            var o1 := FirstHit(OnAir(h1, uap, Candidate(b1, delta)), uap, b1, 0);
            var u1 := TrackStep(t, o1);
            var o2 := FirstHit(OnAir(h2, uap, Candidate(b2, delta)), uap, b2, 0);
            var u2 := TrackStep(u1, o2);
            && u1.offset == t.offset && u1.confidence == t.confidence
            && u2 == Track(Candidate(t.offset, delta), 0, if t.confidence < 5 then t.confidence + 1 else 5, true)
  {
    hide HecOkClean, OnAir, FirstHit;
    DriftReported(h1, uap, (rx1 + t.offset) % 64, delta);
    DriftReported(h2, uap, (rx2 + t.offset) % 64, delta);
  }

  /** The sender moving from clock value 31 to 32 goes unnoticed: the header still validates unmoved. */
  lemma MaskedDrift(h: Header, uap: Word)
    requires h.Valid() && |uap| == 8
    ensures FirstHit(OnAir(h, uap, 32), uap, 31, 0) == Hit(0)
  {
    hide HecOkClean, OnAir, FirstHit;
    CleanOutcome(h, uap, 32, 31, 0);
  }
}
