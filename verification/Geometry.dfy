/** Lane and bin arithmetic of the channelizer: which capture rates split into lanes, and where each Bluetooth
    channel lands.  Frequencies in Hz. */
module Geometry {
  import opened Arith
  import opened Wrappers

  const MHZ: int := 1000000
  const MAX_LANE_RATE: int := 20000000
  const BASE: int := 2402000000

  datatype Lanes = Lanes(k: nat, m: nat)

  predicate Grid(grid: int) {
    grid == MHZ || grid == 2 * MHZ
  }

  /** The fewest equal lanes of at most 20 MHz, each with an even number of bins. */
  function Plan(fs: nat, grid: nat): (p: Option<Lanes>) {
    if fs == 0 || !Grid(grid) || fs % 1000000 != 0 then None
    else
      var k := (fs + 20000000 - 1) / 20000000;
      if k < 1 || k > 4 || fs % k != 0 then None
      else
        var lane := fs / k;
        if lane % grid != 0 then None
        else
          var m := lane / grid;
          if m < 2 || m % 2 != 0 then None else Some(Lanes(k, m))
  }

  /** An accepted plan splits the rate exactly, within the lane budget, and with one lane fewer the budget
      would be broken. */
  lemma PlanSplits(fs: nat, grid: nat)
    requires Plan(fs, grid).Some?
    ensures var p := Plan(fs, grid).value;
            && 1 <= p.k <= 4 && p.m >= 2 && p.m % 2 == 0 && Grid(grid)
            && fs == p.k * (p.m * grid)
            && p.m * grid <= MAX_LANE_RATE
            && fs > (p.k - 1) * MAX_LANE_RATE
  {
    var k := (fs + 20000000 - 1) / 20000000;
    var lane := fs / k;
    DivBounds(fs, k);
    assert fs == lane * k;
    if grid == 1000000 {
      assert lane == (lane / grid) * 1000000;
    } else {
      assert lane == (lane / grid) * 2000000;
    }
    if k == 1 {
    } else if k == 2 {
    } else if k == 3 {
    } else {
      assert k == 4;
    }
  }

  lemma CeilIs(fs: nat, k: nat)
    requires 1 <= k <= 4 && (k - 1) * 20000000 < fs <= k * 20000000
    ensures (fs + 20000000 - 1) / 20000000 == k
  {
  }

  /** A plan is accepted exactly when it is one: whole MHz, one to four equal lanes of at most 20 MHz, no lane too
      many, each an even number of bins on the grid asked for. */
  lemma PlanExactly(fs: nat, grid: nat, k: nat, m: nat)
    ensures Plan(fs, grid) == Some(Lanes(k, m)) <==>
            && (grid == 1000000 || grid == 2000000)
            && 1 <= k <= 4 && m >= 2 && m % 2 == 0 && fs == k * (m * grid)
            && m * grid <= 20000000 && (k - 1) * 20000000 < fs
  {
    if Plan(fs, grid) == Some(Lanes(k, m)) {
      PlanSplits(fs, grid);
    }
    if (grid == 1000000 || grid == 2000000) && 1 <= k <= 4 && m >= 2 && m % 2 == 0 && fs == k * (m * grid)
       && m * grid <= 20000000 && (k - 1) * 20000000 < fs {
      var lane := m * grid;
      MulMono(k, lane, 20000000);
      CeilIs(fs, k);
      assert fs % k == 0 && fs / k == lane by {
        DivUnique(fs, k, lane, 0);
      }
      assert fs % 1000000 == 0 by {
        WholeMhz(fs, grid, k * m);
      }
      assert lane % grid == 0 && lane / grid == m by {
        DivUnique(lane, grid, m, 0);
      }
    }
  }

  lemma WholeMhz(fs: nat, grid: nat, n: nat)
    requires (grid == 1000000 || grid == 2000000) && fs == n * grid
    ensures fs % 1000000 == 0
  {
  }

  // ---- bins ----

  /** Bin of a centre in a bank of m bins around `lo`, or -1. */
  function BinForCenter(m: nat, lo: int, center: int, grid: nat): (bin: int) {
    if m == 0 || grid == 0 || (center - lo) % grid != 0 then -1
    else
      var k := (center - lo) / grid;
      if k < -(m / 2) || k > m / 2 - 1 then -1 else if k < 0 then k + m else k
  }

  function CenterForBin(m: nat, lo: int, bin: int, grid: nat): int {
    lo + (if bin >= m / 2 then bin - m else bin) * grid
  }

  /** In an even bank bins and centres on the raster inside the span are in one-to-one correspondence. */
  lemma BinsAndCenters(m: nat, lo: int, center: int, bin: int, grid: nat)
    requires m % 2 == 0 && grid > 0
    ensures BinForCenter(m, lo, center, grid) == bin && bin >= 0
       <==> 0 <= bin < m && CenterForBin(m, lo, bin, grid) == center
  {
    var k := if bin >= m / 2 then bin - m else bin;
    if CenterForBin(m, lo, bin, grid) == center {
      ExactMultiple(k, grid);
    }
    if (center - lo) % grid == 0 {
      assert center - lo == (center - lo) / grid * grid;
    }
  }

  // ---- the service ----

  datatype Service = Service(fs: nat, lo: nat, grid: nat, k: nat, m: nat) {
    /** The radio's centre aligned to the grid, halves up. */
    function LoEff(): int
      requires grid > 0
    {
      (lo + grid / 2) / grid * grid
    }

    function SubRate(): nat {
      m * grid
    }

    function SpanLo(): int
      requires grid > 0
    {
      LoEff() - fs / 2
    }

    /** Centre of a lane's band. */
    function SubCenter(lane: nat): int
      requires grid > 0
    {
      SpanLo() + SubRate() / 2 + lane * SubRate()
    }

    ghost predicate Valid() {
      && 1 <= k <= 4 && m >= 2 && m % 2 == 0 && Grid(grid) && fs == k * (m * grid) && fs <= 80000000
      && 100000000 <= lo < 4000000000
    }
  }

  /** Plan on the grid asked for; the 2 MHz grid falls back to 1 MHz. */
  function Layout(fs: nat, lo: nat, grid: nat): (s: Option<Service>) {
    match Plan(fs, grid)
    case Some(p) => Some(Service(fs, lo, grid, p.k, p.m))
    case None =>
      if grid != 2000000 then None
      else
        match Plan(fs, 1000000)
        case Some(p) => Some(Service(fs, lo, 1000000, p.k, p.m))
        case None => None
  }

  lemma LayoutValid(fs: nat, lo: nat, grid: nat)
    requires Layout(fs, lo, grid).Some? && 100000000 <= lo < 4000000000
    ensures Layout(fs, lo, grid).value.Valid()
  {
    hide Plan;
    var s := Layout(fs, lo, grid).value;
    PlanSplits(fs, s.grid);
    LanesBudget(s.k, s.m * s.grid);
  }

  lemma LanesBudget(k: nat, lane: nat)
    requires k <= 4 && lane <= MAX_LANE_RATE
    ensures k * lane <= 80000000
  {
  }

  datatype Descriptor = Descriptor(lane: nat, bin: nat, center: int)

  lemma SubRatePositive(s: Service)
    requires s.Valid()
    ensures s.SubRate() > 0
  {
    MulMono(s.grid, 1, s.m);
  }

  /** Truncation to 32 bits. */
  function Unsigned(i: int): (u: nat)
    ensures u < 0x1_0000_0000
    ensures 0 <= i < 0x1_0000_0000 ==> u == i
    ensures -0x1_0000_0000 <= i < 0 ==> u == i + 0x1_0000_0000
  {
    i % 0x1_0000_0000
  }

  /** Bands above the lower edge of the span, in 32-bit unsigned arithmetic. */
  function LaneFor(s: Service, center: int): (lane: nat)
    requires s.Valid()
  {
    SubRatePositive(s);
    Quotient(Unsigned(center - s.SpanLo()), s.SubRate())
  }

  /** Where a channel centre lands, if it does. */
  function Describe(s: Service, center: int): (d: Option<Descriptor>)
    requires s.Valid()
  {
    if center - s.lo >= s.fs / 2 || s.lo - center >= s.fs / 2 then None
    else
      var lane := LaneFor(s, center);
      if lane >= s.k then None
      else
        var bin := BinForCenter(s.m, s.SubCenter(lane), center, s.grid);
        if bin < 0 then None else Some(Descriptor(lane, bin, center))
  }

  /** The bin a channel is sent to is centred on the channel. */
  lemma BinIsCentred(s: Service, center: int)
    requires s.Valid() && Describe(s, center).Some?
    ensures var d := Describe(s, center).value;
            && d.lane < s.k && d.bin < s.m && d.center == center
            && CenterForBin(s.m, s.SubCenter(d.lane), d.bin, s.grid) == center
  {
    var lane := LaneFor(s, center);
    hide CenterForBin, BinForCenter;
    BinsAndCenters(s.m, s.SubCenter(lane), center, BinForCenter(s.m, s.SubCenter(lane), center, s.grid), s.grid);
  }

  /** Different channels are sent to different bins. */
  lemma BinsDistinct(s: Service, c: int, d: int)
    requires s.Valid() && c != d && Describe(s, c).Some? && Describe(s, d).Some?
    ensures Describe(s, c).value.lane != Describe(s, d).value.lane
         || Describe(s, c).value.bin != Describe(s, d).value.bin
  {
    hide Describe, CenterForBin;
    BinIsCentred(s, c);
    BinIsCentred(s, d);
  }

  /** Down-conversion by k, half a frame's samples per frame, every stride-th frame: two samples per
      microsecond come out. */
  lemma OutputRate(s: Service)
    requires s.Valid()
    ensures var stride := s.grid / 1000000; s.k * (s.m / 2) * stride * 2000000 == s.fs
  {
    var h := s.m / 2;
    assert s.m == 2 * h;
    if s.grid == 1000000 {
      assert s.k * (2 * h * 1000000) == s.k * h * 1 * 2000000;
    } else {
      assert s.k * (2 * h * 2000000) == s.k * h * 2 * 2000000;
    }
  }

  // ---- which channels are covered ----

  ghost predicate Near(s: Service, center: int) {
    center - s.lo < s.fs / 2 && s.lo - center < s.fs / 2
  }

  ghost predicate InSpan(s: Service, center: int)
    requires s.grid > 0
  {
    s.SpanLo() <= center < s.SpanLo() + s.fs
  }

  /** Near the radio's centre, inside the span, and on the raster of the aligned centre. */
  ghost predicate Covers(s: Service, center: int)
    requires s.grid > 0
  {
    Near(s, center) && InSpan(s, center) && (center - s.LoEff()) % s.grid == 0
  }

  /** Half the rate and half a lane are whole bins. */
  lemma Halves(s: Service)
    requires s.Valid()
    ensures s.SubRate() / 2 == (s.m / 2) * s.grid && s.SubRate() == 2 * ((s.m / 2) * s.grid)
    ensures s.fs / 2 == s.k * ((s.m / 2) * s.grid)
  {
    var h := s.m / 2;
    assert s.m == 2 * h;
    assert s.m * s.grid == 2 * (h * s.grid);
    assert s.k * (2 * (h * s.grid)) == 2 * (s.k * (h * s.grid));
  }

  /** A lane's centre is on the grid of the aligned radio centre. */
  lemma LaneOnGrid(s: Service, lane: nat, center: int)
    requires s.Valid()
    ensures (center - s.SubCenter(lane)) % s.grid == (center - s.LoEff()) % s.grid
  {
    Halves(s);
    WholeBins(s.k, s.m / 2, lane, s.m, s.grid);
    ModShift(center - s.LoEff(), s.k * (s.m / 2) - s.m / 2 - lane * s.m, s.grid);
  }

  lemma WholeBins(k: nat, h: nat, lane: nat, m: nat, g: nat)
    ensures k * (h * g) - h * g - lane * (m * g) == (k * h - h - lane * m) * g
  {
    assert (k * h) * g == k * (h * g);
    assert (lane * m) * g == lane * (m * g);
  }

  lemma AlignedWithin(s: Service)
    requires s.Valid()
    ensures s.lo < s.LoEff() + s.grid && s.LoEff() <= s.lo + s.grid && 0 < s.SpanLo() < 0x1_0000_0000
  {
    DivBounds(s.lo + s.grid / 2, s.grid);
  }

  /** The lane exists exactly for centres inside the span. */
  lemma LaneInSpan(s: Service, center: int)
    requires s.Valid() && Near(s, center)
    ensures LaneFor(s, center) < s.k <==> InSpan(s, center)
    ensures InSpan(s, center) ==> var lane := LaneFor(s, center);
              -(s.SubRate() / 2) <= center - s.SubCenter(lane) < s.SubRate() / 2
  {
    AlignedWithin(s);
    SubRatePositive(s);
    var u := Unsigned(center - s.SpanLo());
    hide Unsigned;
    var lane := u / s.SubRate();
    FitsIffBelow(u, s.SubRate(), s.k);
    DivBounds(u, s.SubRate());
    Halves(s);
    assert s.SubRate() * s.k == s.fs;
  }

  /** A channel gets a descriptor exactly when it is near the radio's centre, inside the span, and on the
      raster of the aligned centre. */
  lemma Covered(s: Service, center: int)
    requires s.Valid()
    ensures Describe(s, center).Some? <==> Covers(s, center)
  {
    if Near(s, center) {
      LaneInSpan(s, center);
      var lane := LaneFor(s, center);
      LaneOnGrid(s, lane, center);
      hide LaneFor;
      if InSpan(s, center) && (center - s.LoEff()) % s.grid == 0 {
        Halves(s);
        InRange(center - s.SubCenter(lane), s.m / 2, s.grid);
      }
    }
  }

  lemma InRange(delta: int, h: nat, grid: nat)
    requires grid > 0 && delta % grid == 0 && -(h * grid) <= delta < h * grid
    ensures 0 <= delta / grid + h < 2 * h
  {
    var q := delta / grid;
    assert (q + h) * grid == delta + h * grid;
    assert (q - h) * grid == delta - h * grid;
    MulSign(q + h, grid);
    MulSign(q - h, grid);
  }

  // ---- the tables of channels ----

  function BredrCenter(c: nat): int {
    BASE + c * 1000000
  }

  function BleCenter(rf: nat): int {
    BASE + rf * 2000000
  }

  /** What the channels below n with centres `center` put into a table. */
  function Table(s: Service, center: nat -> int, n: nat): (t: seq<Descriptor>)
    requires s.Valid()
  {
    if n == 0 then []
    else
      match Describe(s, center(n - 1))
      case None => Table(s, center, n - 1)
      case Some(d) => Table(s, center, n - 1) + [d]
  }

  method BuildDescriptors(s: Service) returns (bredr: seq<Descriptor>, ble: seq<Descriptor>)
    requires s.Valid()
    ensures bredr == Table(s, BredrCenter, 79) && ble == Table(s, BleCenter, 40)
  {
    hide Describe;
    bredr, ble := [], [];
    var c := 0;
    while c < 79
      invariant c <= 79 && bredr == Table(s, BredrCenter, c)
    {
      var d := Describe(s, BredrCenter(c));
      if d.Some? {
        bredr := bredr + [d.value];
      }
      c := c + 1;
    }
    var rf := 0;
    while rf < 40
      invariant rf <= 40 && ble == Table(s, BleCenter, rf)
    {
      var d := Describe(s, BleCenter(rf));
      if d.Some? {
        ble := ble + [d.value];
      }
      rf := rf + 1;
    }
  }

  /** A table holds, in channel order, the channels from `first` to `first + count - 1` and no others, each
      in a bin of its own centred on it. */
  ghost predicate IsWindow(s: Service, t: seq<Descriptor>, center: nat -> int, first: nat, count: nat)
    requires s.Valid()
  {
    && |t| == count
    && (forall i :: 0 <= i < count ==> t[i].center == center(first + i) && Placed(s, t[i]))
    && (forall i, j :: 0 <= i < j < count ==> t[i].lane != t[j].lane || t[i].bin != t[j].bin)
  }

  ghost predicate Placed(s: Service, d: Descriptor)
    requires s.Valid()
  {
    d.lane < s.k && d.bin < s.m && CenterForBin(s.m, s.SubCenter(d.lane), d.bin, s.grid) == d.center
  }

  ghost predicate Present(s: Service, center: nat -> int, c: nat)
    requires s.Valid()
  {
    Describe(s, center(c)).Some?
  }

  lemma {:induction false} TableWindow(s: Service, center: nat -> int, n: nat, first: nat, count: nat)
    requires s.Valid() && first <= n
    requires forall c: nat :: c < n ==> (Present(s, center, c) <==> first <= c < first + count)
    ensures var size := if n < first + count then n - first else count;
            var t := Table(s, center, n);
            && |t| == size
            && forall i :: 0 <= i < size ==>
                 t[i].center == center(first + i) && Describe(s, center(first + i)) == Some(t[i])
    decreases n
  {
    hide Describe, Service.Valid;
    if n > first {
      assert Present(s, center, n - 1) <==> first <= n - 1 < first + count;
      TableWindow(s, center, n - 1, first, count);
      DescribedCenter(s, center(n - 1));
    } else {
      TableEmpty(s, center, n);
    }
  }

  lemma {:induction false} TableEmpty(s: Service, center: nat -> int, n: nat)
    requires s.Valid() && forall c: nat :: c < n ==> !Present(s, center, c)
    ensures Table(s, center, n) == []
  {
    hide Describe, Service.Valid;
    if n > 0 {
      assert !Present(s, center, n - 1);
      TableEmpty(s, center, n - 1);
    }
  }

  lemma DescribedCenter(s: Service, center: int)
    requires s.Valid()
    ensures Describe(s, center).Some? ==> Describe(s, center).value.center == center
  {
  }

  lemma WindowTable(s: Service, center: nat -> int, n: nat, first: nat, count: nat)
    requires s.Valid() && first + count <= n
    requires forall c: nat :: c < n ==> (Present(s, center, c) <==> first <= c < first + count)
    requires forall c: nat, d: nat :: c < d ==> center(c) < center(d)
    ensures IsWindow(s, Table(s, center, n), center, first, count)
  {
    hide Describe, Service.Valid, CenterForBin;
    TableWindow(s, center, n, first, count);
    var t := Table(s, center, n);
    forall i | 0 <= i < count ensures Placed(s, t[i]) {
      assert Describe(s, center(first + i)) == Some(t[i]);
      BinIsCentred(s, center(first + i));
    }
    forall i, j | 0 <= i < j < count ensures t[i].lane != t[j].lane || t[i].bin != t[j].bin {
      assert center(first + i) < center(first + j);
      assert Describe(s, center(first + i)) == Some(t[i]) && Describe(s, center(first + j)) == Some(t[j]);
      BinsDistinct(s, center(first + i), center(first + j));
    }
  }

  // ---- tuning ----

  datatype Ref = RefBle | RefBredr

  datatype Status = Ok | BadRange | NoLaneSplit | RateExceeded

  datatype Rate = Rate(lo: nat, mhz: nat)

  /** Radio centre and rate for a window of channels. */
  function LayoutRate(ref: Ref, bottom: nat, count: nat, ble: bool, bredr: bool): (r: Option<Rate>) {
    if count == 0 then None
    else if ble && bredr && ref != RefBredr then None
    else if ref == RefBle then
      if count > 40 || bottom + count > 40 then None
      else Some(Rate(2401000000 + 2000000 * bottom + 1000000 * count, 2 * count))
    else
      if count > 79 || bottom + count > 79 then None
      else if count == 79 then
        if bottom != 0 then None else Some(Rate(2441000000, 80))
      else Some(Rate(2402000000 + 1000000 * bottom + 500000 * (count - 1), count))
  }

  function Floor4(mhz: nat): nat {
    if mhz < 4 then 4 else mhz
  }

  function GridFor(ref: Ref): nat {
    if ref == RefBle then 2000000 else 1000000
  }

  predicate ValidRate(fs: nat, grid: nat) {
    Plan(fs, grid).Some? || (grid == 2000000 && Plan(fs, 1000000).Some?)
  }

  function LayoutCheck(maxRate: nat, ref: Ref, fs: nat): Status {
    if !ValidRate(fs, GridFor(ref)) then NoLaneSplit
    else if fs > maxRate then RateExceeded
    else Ok
  }

  class Session {
    const ble: bool
    const bredr: bool
    const maxRate: nat
    var lo: nat
    var fs: nat

    constructor (ble: bool, bredr: bool, maxRate: nat)
      ensures this.ble == ble && this.bredr == bredr && this.maxRate == maxRate && lo == 0 && fs == 0
    {
      this.ble, this.bredr, this.maxRate, lo, fs := ble, bredr, maxRate, 0, 0;
    }

    /** Tune to a window.  A window out of range leaves the session alone; one whose rate is refused later
        has already been written. */
    method Tune(ref: Ref, bottom: nat, count: nat) returns (ok: bool)
      modifies this`lo, this`fs
      ensures var r := LayoutRate(ref, bottom, count, ble, bredr);
              && (r.None? ==> !ok && lo == old(lo) && fs == old(fs))
              && (r.Some? ==> lo == r.value.lo && fs == Floor4(r.value.mhz) * 1000000)
              && (r.Some? ==> (ok <==> LayoutCheck(maxRate, ref, fs) == Ok))
    {
      var r := LayoutRate(ref, bottom, count, ble, bredr);
      if r.None? {
        return false;
      }
      lo, fs := r.value.lo, Floor4(r.value.mhz) * 1000000;
      return LayoutCheck(maxRate, ref, fs) == Ok;
    }
  }

  /** What the tune of a window and the start of its service give. */
  ghost predicate Tuned(ref: Ref, bottom: nat, count: nat, ble: bool, bredr: bool, grid: nat, s: Service) {
    var r := LayoutRate(ref, bottom, count, ble, bredr);
    r.Some? && Layout(Floor4(r.value.mhz) * 1000000, r.value.lo, grid) == Some(s)
  }

  lemma TunedValid(ref: Ref, bottom: nat, count: nat, ble: bool, bredr: bool, grid: nat, s: Service)
    requires Tuned(ref, bottom, count, ble, bredr, grid, s)
    ensures s.Valid()
  {
    var r := LayoutRate(ref, bottom, count, ble, bredr).value;
    LayoutValid(Floor4(r.mhz) * 1000000, r.lo, grid);
  }

  /** The grid the service asks for depends on what is enabled, not on the tune's reference. */
  function ServiceGrid(ble: bool, bredr: bool): nat {
    if ble && !bredr then 2000000 else 1000000
  }

  /** What splits into 2 MHz bins splits into 1 MHz bins. */
  lemma CoarseIsFine(fs: nat)
    requires Plan(fs, 2000000).Some?
    ensures Plan(fs, 1000000).Some?
  {
  }

  /** Every tune that succeeds can be served, whatever is enabled and whichever channels the tune refers to. */
  lemma TuneIsServed(ref: Ref, bottom: nat, count: nat, ble: bool, bredr: bool, maxRate: nat) returns (s: Service)
    requires var r := LayoutRate(ref, bottom, count, ble, bredr);
             r.Some? && LayoutCheck(maxRate, ref, Floor4(r.value.mhz) * 1000000) == Ok
    ensures Tuned(ref, bottom, count, ble, bredr, ServiceGrid(ble, bredr), s) && s.Valid()
    ensures s.fs <= maxRate
    ensures s.grid == if ble && !bredr && Plan(s.fs, 2000000).Some? then 2000000 else 1000000
  {
    hide Plan, Service.Valid;
    var r := LayoutRate(ref, bottom, count, ble, bredr).value;
    var fs := Floor4(r.mhz) * 1000000;
    if Plan(fs, 2000000).Some? {
      CoarseIsFine(fs);
    }
    s := Layout(fs, r.lo, ServiceGrid(ble, bredr)).value;
    TunedValid(ref, bottom, count, ble, bredr, ServiceGrid(ble, bredr), s);
  }

  /** A BR/EDR window that is in range is refused for its rate exactly when it asks for an unsupported count
      of four or more; the session has been written by then. */
  lemma RateRefused(bottom: nat, count: nat, ble: bool, maxRate: nat)
    requires LayoutRate(RefBredr, bottom, count, ble, true).Some?
    ensures var fs := Floor4(LayoutRate(RefBredr, bottom, count, ble, true).value.mhz) * 1000000;
            LayoutCheck(maxRate, RefBredr, fs) == NoLaneSplit <==> count >= 4 && !ValidBredrCount(count)
  {
    hide Plan;
    if count < 4 {
      PlanOneLane(4);
    }
    if count != 79 && count % 2 == 1 && Plan(count * 1000000, 1000000).Some? {
      RateIsEven(count);
    }
  }

  /** For instance 22 channels from channel 0: refused, and centre and rate are overwritten. */
  method RefusedTune(s: Session) returns (ok: bool)
    requires !s.ble && s.bredr
    modifies s
    ensures !ok && s.lo == 2412500000 && s.fs == 22000000
  {
    hide Plan;
    RateRefused(0, 22, false, s.maxRate);
    SupportedCounts(22);
    ok := s.Tune(RefBredr, 0, 22);
  }

  /** Lanes of even bins on the 1 MHz grid take an even number of MHz. */
  lemma RateIsEven(mhz: nat)
    requires Plan(mhz * 1000000, 1000000).Some?
    ensures mhz % 2 == 0
  {
    var p := Plan(mhz * 1000000, 1000000).value;
    PlanSplits(mhz * 1000000, 1000000);
    hide Plan;
    EvenLanes(p.k, p.m, 1000000);
  }

  /** k lanes of an even number m of bins are a whole number of double bins. */
  lemma EvenLanes(k: nat, m: nat, grid: nat)
    requires m % 2 == 0
    ensures k * (m * grid) == k * (m / 2) * (2 * grid)
  {
    var h := m / 2;
    assert m == 2 * h;
    assert k * (2 * h * grid) == k * h * (2 * grid);
  }

  lemma BredrAligned(s: Service, halves: nat)
    requires s.grid == 1000000 && s.lo == halves * 500000
    ensures s.LoEff() == if halves % 2 == 0 then s.lo else s.lo + 500000
  {
  }

  lemma BredrPlaced(s: Service, bottom: nat, count: nat, c: nat)
    requires s.grid == 1000000 && 0 < count < 79 && s.lo == (4804 + 2 * bottom + count - 1) * 500000
    requires s.LoEff() == if count % 2 == 1 then s.lo else s.lo + 500000
    requires s.fs == Floor4(count) * 1000000 && Floor4(count) % 2 == 0
    ensures count >= 3 ==> (Covers(s, BredrCenter(c)) <==> bottom <= c < bottom + count)
    ensures count < 3 ==> (Covers(s, BredrCenter(c)) <==> bottom <= c + 1 && c < bottom + count + 1)
  {
    hide Service.LoEff;
    ExactMultiple(c - bottom - count / 2, 1000000);
  }

  lemma AllPlaced(s: Service, c: nat)
    requires s.grid == 1000000 && s.lo == s.LoEff() == 2441000000 && s.fs == 80000000 && c < 79
    ensures Covers(s, BredrCenter(c))
  {
    hide Service.LoEff;
    ExactMultiple(c - 39, 1000000);
  }

  /** Channel by channel: a tune of three or more BR/EDR channels covers exactly the window, one of one or
      two also the neighbours. */
  lemma BredrPresent(bottom: nat, count: nat, ble: bool, s: Service, c: nat)
    requires Tuned(RefBredr, bottom, count, ble, true, ServiceGrid(ble, true), s) && s.Valid() && c < 79
    ensures count >= 3 ==> (Present(s, BredrCenter, c) <==> bottom <= c < bottom + count)
    ensures count < 3 ==> (Present(s, BredrCenter, c) <==> bottom <= c + 1 && c < bottom + count + 1)
  {
    hide Plan, Describe, Service.LoEff, Service.Valid, BredrCenter;
    var r := LayoutRate(RefBredr, bottom, count, ble, true).value;
    RateIsEven(Floor4(r.mhz));
    Covered(s, BredrCenter(c));
    assert s.grid == 1000000 && s.fs == Floor4(r.mhz) * 1000000 && s.lo == r.lo;
    if count == 79 {
      BredrAligned(s, 4882);
      hide Covers;
      AllPlaced(s, c);
    } else {
      BredrAligned(s, 4804 + 2 * bottom + count - 1);
      hide Covers;
      BredrPlaced(s, bottom, count, c);
    }
  }

  /** In a session with both protocols a BLE channel is covered exactly when the BR/EDR channel on its frequency
      is. */
  lemma HybridBle(bottom: nat, count: nat, s: Service, rf: nat)
    requires Tuned(RefBredr, bottom, count, true, true, ServiceGrid(true, true), s) && s.Valid() && rf < 40
    ensures count >= 3 ==> (Present(s, BleCenter, rf) <==> bottom <= 2 * rf < bottom + count)
    ensures count < 3 ==> (Present(s, BleCenter, rf) <==> bottom <= 2 * rf + 1 && 2 * rf < bottom + count + 1)
  {
    hide Plan, Describe, Service.Valid;
    assert BleCenter(rf) == BredrCenter(2 * rf);
    BredrPresent(bottom, count, true, s, 2 * rf);
  }

  /** The BR/EDR table of an accepted tune is exactly the window asked for if and only if it asks for at
      least three channels (an even count from four up, 79, or three). */
  lemma BredrWindow(bottom: nat, count: nat, ble: bool, s: Service)
    requires Tuned(RefBredr, bottom, count, ble, true, ServiceGrid(ble, true), s) && s.Valid()
    ensures IsWindow(s, Table(s, BredrCenter, 79), BredrCenter, bottom, count) <==> count >= 3
  {
    hide Describe, Service.Valid;
    forall c: nat | c < 79
      ensures count >= 3 ==> (Present(s, BredrCenter, c) <==> bottom <= c < bottom + count)
      ensures count < 3 ==> (Present(s, BredrCenter, c) <==> bottom <= c + 1 && c < bottom + count + 1)
    {
      BredrPresent(bottom, count, ble, s, c);
    }
    if count >= 3 {
      WindowTable(s, BredrCenter, 79, bottom, count);
    } else {
      var first: nat := if bottom == 0 then 0 else bottom - 1;
      TableWindow(s, BredrCenter, 79, first, bottom + count + 1 - first);
    }
  }

  /** For instance one channel, number 10: its neighbours come with it. */
  lemma NarrowTuneWidens() returns (s: Service)
    ensures Tuned(RefBredr, 10, 1, false, true, ServiceGrid(false, true), s) && s.Valid()
    ensures Present(s, BredrCenter, 9) && Present(s, BredrCenter, 11)
    ensures !IsWindow(s, Table(s, BredrCenter, 79), BredrCenter, 10, 1)
  {
    hide Plan, Describe, Table, Service.Valid;
    PlanOneLane(4);
    s := TuneIsServed(RefBredr, 10, 1, false, true, 4000000);
    BredrPresent(10, 1, false, s, 9);
    BredrPresent(10, 1, false, s, 11);
    BredrWindow(10, 1, false, s);
  }

  /** The rates a BLE window leads to. */
  lemma BleRate(mhz: nat)
    requires mhz % 2 == 0 && Plan(mhz * 1000000, 2000000).Some?
    ensures mhz % 4 == 0
  {
    var p := Plan(mhz * 1000000, 2000000).value;
    PlanSplits(mhz * 1000000, 2000000);
    hide Plan;
    EvenLanes(p.k, p.m, 2000000);
  }

  /** The aligned centre of a BLE window, in MHz above the band edge: on the 2 MHz grid the window has an
      even count, or is a single channel. */
  lemma BleAligned(s: Service, mhz: nat)
    requires s.Valid() && s.lo == mhz * 1000000
    ensures s.grid == 1000000 ==> s.LoEff() == s.lo
    ensures s.grid == 2000000 ==> s.LoEff() == (if mhz % 2 == 0 then s.lo else s.lo + 1000000)
  {
  }

  lemma BlePresent(bottom: nat, count: nat, s: Service, rf: nat)
    requires Tuned(RefBle, bottom, count, true, false, ServiceGrid(true, false), s) && s.Valid() && rf < 40
    ensures Present(s, BleCenter, rf) <==> bottom <= rf < bottom + count
  {
    hide Plan, Describe, Service.Valid, Service.LoEff;
    var r := LayoutRate(RefBle, bottom, count, true, false).value;
    assert s.fs == Floor4(r.mhz) * 1000000 && s.lo == (2401 + 2 * bottom + count) * 1000000;
    Covered(s, BleCenter(rf));
    BleAligned(s, 2401 + 2 * bottom + count);
    if s.grid == 2000000 {
      BleRate(Floor4(r.mhz));
      BlePlaced2(s, bottom, count, rf);
    } else {
      BlePlaced1(s, bottom, count, rf);
    }
  }

  lemma BlePlaced1(s: Service, bottom: nat, count: nat, rf: nat)
    requires s.grid == 1000000 && s.LoEff() == s.lo == (2401 + 2 * bottom + count) * 1000000 && count > 0
    requires s.fs == Floor4(2 * count) * 1000000
    ensures Covers(s, BleCenter(rf)) <==> bottom <= rf < bottom + count
  {
    hide Service.LoEff;
    ExactMultiple(1 + 2 * rf - 2 * bottom - count, 1000000);
  }

  lemma BlePlaced2(s: Service, bottom: nat, count: nat, rf: nat)
    requires s.grid == 2000000 && s.lo == (2401 + 2 * bottom + count) * 1000000 && count > 0
    requires s.LoEff() == if count % 2 == 1 then s.lo else s.lo + 1000000
    requires s.fs == Floor4(2 * count) * 1000000 && (count % 2 == 0 || count == 1)
    ensures Covers(s, BleCenter(rf)) <==> bottom <= rf < bottom + count
  {
    hide Service.LoEff;
    if count == 1 {
      ExactMultiple(rf - bottom, 2000000);
    } else {
      ExactMultiple(rf - bottom - count / 2, 2000000);
    }
  }

  /** The BLE table of an accepted BLE-only tune is exactly the window asked for, for every count, on the
      2 MHz grid and on the 1 MHz grid it falls back to. */
  lemma BleWindow(bottom: nat, count: nat, s: Service)
    requires Tuned(RefBle, bottom, count, true, false, ServiceGrid(true, false), s) && s.Valid()
    ensures IsWindow(s, Table(s, BleCenter, 40), BleCenter, bottom, count)
  {
    hide Describe, Service.Valid;
    forall rf: nat | rf < 40 ensures Present(s, BleCenter, rf) <==> bottom <= rf < bottom + count {
      BlePresent(bottom, count, s, rf);
    }
    WindowTable(s, BleCenter, 40, bottom, count);
  }

  // ---- supported counts ----

  predicate ValidBredrCount(c: nat) {
    if c == 79 then Plan(80000000, 1000000).Some?
    else 2 <= c <= 79 && c % 2 == 0 && Plan(c * 1000000, 1000000).Some?
  }

  // c MHz need ceil(c / 20) lanes, each an even number of MHz.

  lemma PlanOneLane(c: nat)
    requires 0 < c <= 20
    ensures Plan(c * 1000000, 1000000).Some? <==> c % 2 == 0
  {
    assert (c * 1000000 + 20000000 - 1) / 20000000 == 1;
  }

  lemma PlanTwoLanes(c: nat)
    requires 20 < c <= 40
    ensures Plan(c * 1000000, 1000000).Some? <==> c % 4 == 0
  {
    assert (c * 1000000 + 20000000 - 1) / 20000000 == 2;
  }

  lemma PlanThreeLanes(c: nat)
    requires 40 < c <= 60
    ensures Plan(c * 1000000, 1000000).Some? <==> c % 6 == 0
  {
    assert (c * 1000000 + 20000000 - 1) / 20000000 == 3;
  }

  lemma PlanFourLanes(c: nat)
    requires 60 < c <= 80
    ensures Plan(c * 1000000, 1000000).Some? <==> c % 8 == 0
  {
    assert (c * 1000000 + 20000000 - 1) / 20000000 == 4;
  }

  /** The counts the program says it supports are the ones its planner accepts. */
  lemma SupportedCounts(c: nat)
    ensures ValidBredrCount(c) <==>
            (c % 2 == 0 && 2 <= c <= 20) || (c % 4 == 0 && 20 < c <= 40) || (c % 6 == 0 && 40 < c <= 60)
            || c == 64 || c == 72 || c == 79
  {
    hide Plan;
    PlanFourLanes(80);
    if 0 < c <= 20 {
      PlanOneLane(c);
    } else if 20 < c <= 40 {
      PlanTwoLanes(c);
    } else if 40 < c <= 60 {
      PlanThreeLanes(c);
    } else if 60 < c < 79 {
      PlanFourLanes(c);
    }
  }

  /** The greatest supported count not above the one asked for. */
  method SnapBredrCount(count: nat) returns (r: nat)
    ensures r <= count
    ensures r != 0 ==> ValidBredrCount(r)
    ensures forall c :: r < c <= count ==> !ValidBredrCount(c)
  {
    hide Plan;
    var c := count;
    if c >= 79 {
      if ValidBredrCount(79) {
        return 79;
      }
      c := 78;
    }
    if c % 2 != 0 {
      c := c - 1;
    }
    while c >= 2
      invariant c % 2 == 0 && c <= count && c <= 78
      invariant forall d: nat :: c < d <= count ==> !ValidBredrCount(d)
    {
      if ValidBredrCount(c) {
        return c;
      }
      c := c - 2;
    }
    return 0;
  }

  // ---- which tunes succeed ----

  /** Even lanes of at most 20 MHz, as few as possible. */
  predicate SplitsEvenly(mhz: nat) {
    || (mhz % 2 == 0 && 2 <= mhz <= 20)
    || (mhz % 4 == 0 && 20 < mhz <= 40)
    || (mhz % 6 == 0 && 40 < mhz <= 60)
    || mhz == 64 || mhz == 72 || mhz == 80
  }

  lemma RateSplits(mhz: nat, ref: Ref)
    requires mhz <= 80
    ensures ValidRate(mhz * 1000000, GridFor(ref)) <==> SplitsEvenly(mhz)
  {
    hide Plan;
    if Plan(mhz * 1000000, 2000000).Some? {
      CoarseIsFine(mhz * 1000000);
    }
    if mhz == 0 {
      NoRate();
    } else if mhz <= 20 {
      PlanOneLane(mhz);
    } else if mhz <= 40 {
      PlanTwoLanes(mhz);
    } else if mhz <= 60 {
      PlanThreeLanes(mhz);
    } else {
      PlanFourLanes(mhz);
    }
  }

  lemma NoRate()
    ensures Plan(0, 1000000).None? && Plan(0, 2000000).None?
  {
  }

  /** A tune to BR/EDR channels succeeds exactly when the window lies in 0..78, it asks for three channels or fewer
      (widened to 4 MHz), for all 79 (80 MHz), or for a count that splits, and the device sustains the rate. */
  lemma BredrTuneAccepted(bottom: nat, count: nat, ble: bool, bredr: bool, maxRate: nat)
    ensures var r := LayoutRate(RefBredr, bottom, count, ble, bredr);
            var mhz := if count == 79 then 80 else if count < 4 then 4 else count;
            && (r.Some? <==> count > 0 && bottom + count <= 79)
            && (r.Some? ==> Floor4(r.value.mhz) == mhz)
            && (r.Some? ==>
                  (LayoutCheck(maxRate, RefBredr, mhz * 1000000) == Ok <==>
                    SplitsEvenly(mhz) && mhz * 1000000 <= maxRate)
                  && (LayoutCheck(maxRate, RefBredr, mhz * 1000000) == NoLaneSplit <==> !SplitsEvenly(mhz)))
  {
    var mhz := if count == 79 then 80 else if count < 4 then 4 else count;
    hide ValidRate, SplitsEvenly;
    if mhz <= 80 {
      RateSplits(mhz, RefBredr);
    }
  }

  /** A tune to BLE channels succeeds exactly when BR/EDR is not enabled beside BLE, the window lies in 0..39, its
      width splits, and the device sustains the rate. */
  lemma BleTuneAccepted(bottom: nat, count: nat, ble: bool, bredr: bool, maxRate: nat)
    ensures var r := LayoutRate(RefBle, bottom, count, ble, bredr);
            var mhz := if count == 1 then 4 else 2 * count;
            && (r.Some? <==> !(ble && bredr) && count > 0 && bottom + count <= 40)
            && (r.Some? ==> Floor4(r.value.mhz) == mhz)
            && (r.Some? ==>
                  (LayoutCheck(maxRate, RefBle, mhz * 1000000) == Ok <==>
                    SplitsEvenly(mhz) && mhz * 1000000 <= maxRate)
                  && (LayoutCheck(maxRate, RefBle, mhz * 1000000) == NoLaneSplit <==> !SplitsEvenly(mhz)))
  {
    var mhz := if count == 1 then 4 else 2 * count;
    hide ValidRate, SplitsEvenly;
    if mhz <= 80 {
      RateSplits(mhz, RefBle);
    }
  }

  /** The radio is centred between the first and the last channel of the window, and is at least as wide. */
  lemma TuneIsCentred(ref: Ref, bottom: nat, count: nat, ble: bool, bredr: bool)
    requires LayoutRate(ref, bottom, count, ble, bredr).Some?
    ensures var r := LayoutRate(ref, bottom, count, ble, bredr).value;
            var step := if ref == RefBle then 2000000 else 1000000;
            && 2 * r.lo == (2402000000 + step * bottom) + (2402000000 + step * (bottom + count - 1))
            && r.mhz * 1000000 >= step * count
  {
  }
}
