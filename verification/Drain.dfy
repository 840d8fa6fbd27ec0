/** End-of-capture quiescence: the dispatchers of a session form a tree (RF, then one sub lane per DDC,
    then one output lane per PFB), every inner dispatcher being fed by a worker that reads another one.
    The drain thread looks at one refcount or one queue at a time while everything else keeps running. */
module Drain {
  import D = Dispatcher

  /** The worker that feeds a dispatcher is reader `slot` of dispatcher `from`. */
  datatype Feed = Feed(from: nat, slot: nat)

  /** feeds[i] tells who feeds dispatcher i + 1; dispatcher 0 is fed by the capture file. */
  ghost predicate Ordered(feeds: seq<Feed>) {
    forall i :: 0 <= i < |feeds| ==> feeds[i].from <= i
  }

  /** An event queue: how many events were submitted to it and how many popped. */
  datatype Queue = Queue(submitted: nat, popped: nat)

  /** The drain thread: not started, looking at block `block` of dispatcher `at`, looking at a queue, or
      through. */
  datatype Probe = Waiting | AtBlock(at: nat, block: nat) | AtQueue(q: nat) | Through

  datatype Pipeline<T> = Pipeline(disp: seq<D.State<T>>, feeds: seq<Feed>, queues: seq<Queue>, capacity: nat,
                                  finished: bool, probe: Probe)

  datatype Step<T> =
    | FileDone                                       // the replay thread has pushed its last block
    | Act(i: nat, a: D.Action<T>)                    // one step of dispatcher i
    | Submit(i: nat, r: nat, q: nat)                 // a channel worker hands over an event
    | PopEvent(q: nat)                               // a collector takes one
    | Look                                           // the drain thread

  ghost predicate WellFormed<T>(p: Pipeline<T>) {
    && |p.disp| == |p.feeds| + 1 && Ordered(p.feeds)
    && (forall i :: 0 <= i < |p.disp| ==> D.Shaped(p.disp[i]))
    && (forall i :: 0 <= i < |p.feeds| ==> p.feeds[i].slot < |p.disp[p.feeds[i].from].readers|)
  }

  /** The worker feeding dispatcher i holds an input block; the file counts as holding one until done. */
  ghost predicate FeederHolds<T>(p: Pipeline<T>, i: nat)
    requires WellFormed(p) && i < |p.disp|
  {
    if i == 0 then !p.finished
    else p.disp[p.feeds[i - 1].from].readers[p.feeds[i - 1].slot].held.Some?
  }

  /** Reader r of dispatcher i is the worker that feeds dispatcher k + 1. */
  ghost predicate Feeds<T>(p: Pipeline<T>, i: nat, r: nat, k: nat) {
    k < |p.feeds| && p.feeds[k] == Feed(i, r)
  }

  /** No shutdown is requested, so no push is abandoned.  A worker produces only while it holds its input
      block, and asks for the next one (which releases it) only after its output block has been pushed and
      let go. */
  ghost predicate Enabled<T>(p: Pipeline<T>, s: Step<T>)
    requires WellFormed(p)
  {
    match s
    case FileDone => !p.finished && p.disp[0].pc.Idle?
    case Act(i, a) =>
      && i < |p.disp| && D.Enabled(p.disp[i], a) && !a.Abandon?
      && (D.IsProducerAction(a) ==> FeederHolds(p, i))
      && (a.Release? ==> forall k :: Feeds(p, i, a.reader, k) ==> p.disp[k + 1].pc.Idle?)
    case Submit(i, r, q) =>
      && i < |p.disp| && r < |p.disp[i].readers| && p.disp[i].readers[r].held.Some?
      && q < |p.queues| && p.queues[q].submitted - p.queues[q].popped < p.capacity
    case PopEvent(q) => q < |p.queues| && p.queues[q].popped < p.queues[q].submitted
    case Look => p.finished
  }

  /** One observation: anything still referenced or queued sends the drain back to its beginning. */
  ghost function LookOnce<T>(p: Pipeline<T>): (probe: Probe)
    requires WellFormed(p)
  {
    match p.probe
    case Waiting => AtBlock(0, 0)
    case AtBlock(i, b) =>
      if i >= |p.disp| then AtQueue(0)
      else if b >= D.BLOCKS then AtBlock(i + 1, 0)
      else if p.disp[i].refs[b] == 0 then AtBlock(i, b + 1)
      else Waiting
    case AtQueue(q) =>
      if q >= |p.queues| then Through
      else if p.queues[q].submitted == p.queues[q].popped then AtQueue(q + 1)
      else Waiting
    case Through => Through
  }

  ghost function Apply<T>(p: Pipeline<T>, s: Step<T>): (t: Pipeline<T>)
    requires WellFormed(p) && Enabled(p, s)
  {
    match s
    case FileDone => p.(finished := true)
    case Act(i, a) => p.(disp := p.disp[i := D.Apply(p.disp[i], a)])
    case Submit(_, _, q) => p.(queues := p.queues[q := p.queues[q].(submitted := p.queues[q].submitted + 1)])
    case PopEvent(q) => p.(queues := p.queues[q := p.queues[q].(popped := p.queues[q].popped + 1)])
    case Look => p.(probe := LookOnce(p))
  }

  // -- invariant --------------------------------------------------------------------------------------

  /** No block of a dispatcher's first n is referenced. */
  ghost predicate ClearUpTo<T>(s: D.State<T>, n: nat) {
    forall b :: 0 <= b < n && b < |s.refs| ==> s.refs[b] == 0
  }

  ghost predicate Quiet<T>(s: D.State<T>) {
    ClearUpTo(s, D.BLOCKS)
  }

  /** A dispatcher whose feeder holds nothing has an idle producer. */
  ghost predicate FeedersIdle<T>(p: Pipeline<T>)
    requires WellFormed(p)
  {
    forall i :: 0 <= i < |p.disp| ==> FeederHolds(p, i) || p.disp[i].pc.Idle?
  }

  /** What the drain has seen stays true. */
  ghost predicate ProbeSound<T>(p: Pipeline<T>)
    requires WellFormed(p)
  {
    match p.probe
    case Waiting => true
    case AtBlock(i, b) =>
      && p.finished && i <= |p.disp|
      && (forall j :: 0 <= j < i ==> Quiet(p.disp[j]))
      && (i < |p.disp| ==> ClearUpTo(p.disp[i], b))
    case AtQueue(q) => p.finished && AllQuiet(p) && QueuesEmpty(p, q)
    case Through => p.finished && AllQuiet(p) && QueuesEmpty(p, |p.queues|)
  }

  ghost predicate AllQuiet<T>(p: Pipeline<T>) {
    forall j :: 0 <= j < |p.disp| ==> Quiet(p.disp[j])
  }

  ghost predicate QueuesEmpty<T>(p: Pipeline<T>, n: nat) {
    forall q :: 0 <= q < n && q < |p.queues| ==> p.queues[q].submitted == p.queues[q].popped
  }

  ghost predicate Inv<T>(p: Pipeline<T>) {
    && WellFormed(p)
    && (forall i :: 0 <= i < |p.disp| ==> D.Inv(p.disp[i]) && p.disp[i].blocking)
    && FeedersIdle(p) && ProbeSound(p)
  }

  /** A quiet dispatcher holds nothing anywhere, and its producer has no block. */
  lemma QuietIsEmpty<T>(s: D.State<T>, r: nat)
    requires D.Inv(s) && Quiet(s) && r < |s.readers|
    ensures s.readers[r].ring == [] && s.readers[r].held.None?
  {
    if s.readers[r].held.Some? {
      D.ReferencedByHolder(s, r);
    }
    if s.readers[r].ring != [] {
      D.ReferencedByRing(s, r);
    }
  }

  /** Readers never take references: without producer steps a clear block stays clear. */
  lemma ReadersOnlyRelease<T>(s: D.State<T>, a: D.Action<T>, n: nat)
    requires D.Inv(s) && D.Enabled(s, a) && !D.IsProducerAction(a) && ClearUpTo(s, n)
    ensures ClearUpTo(D.Apply(s, a), n) && D.Apply(s, a).pc == s.pc
  {
    D.ShapedKept(s, a);
  }

  // -- every step keeps the invariant -----------------------------------------------------------------

  lemma ActKeepsParts<T>(p: Pipeline<T>, i: nat, a: D.Action<T>)
    requires Inv(p) && Enabled(p, Act(i, a))
    ensures var t := Apply(p, Act(i, a));
            && WellFormed(t) && FeedersIdle(t)
            && forall j :: 0 <= j < |t.disp| ==> D.Inv(t.disp[j]) && t.disp[j].blocking
  {
    hide D.Inv, D.Shaped, ProbeSound;
    D.InvKept(p.disp[i], a);
    var t := Apply(p, Act(i, a));
    assert WellFormed(t) by {
      ActShaped(p, i, a);
    }
    forall j | 0 <= j < |t.disp| ensures FeederHolds(t, j) || t.disp[j].pc.Idle? {
      ActFeeder(p, i, a, j);
    }
  }

  lemma ActShaped<T>(p: Pipeline<T>, i: nat, a: D.Action<T>)
    requires WellFormed(p) && Enabled(p, Act(i, a))
    ensures WellFormed(Apply(p, Act(i, a)))
  {
    hide D.Shaped;
    D.ShapedKept(p.disp[i], a);
  }

  lemma ActFeeder<T>(p: Pipeline<T>, i: nat, a: D.Action<T>, j: nat)
    requires WellFormed(p) && FeedersIdle(p) && Enabled(p, Act(i, a)) && j < |p.disp|
    ensures WellFormed(Apply(p, Act(i, a)))
    ensures var t := Apply(p, Act(i, a)); FeederHolds(t, j) || t.disp[j].pc.Idle?
  {
    hide D.Shaped;
    ActShaped(p, i, a);
    D.ShapedKept(p.disp[i], a);
    if j > 0 && p.feeds[j - 1].from == i {
      assert Feeds(p, i, p.feeds[j - 1].slot, j - 1);
      HeldAfter(p.disp[i], a, p.feeds[j - 1].slot);
    } else if j == i {
      assert FeederHolds(p, i) || p.disp[i].pc.Idle?;
      assert !D.IsProducerAction(a) ==> D.Apply(p.disp[i], a).pc == p.disp[i].pc;
    }
  }

  lemma HeldAfter<T>(s: D.State<T>, a: D.Action<T>, r: nat)
    requires D.Shaped(s) && D.Enabled(s, a) && r < |s.readers|
    ensures D.Shaped(D.Apply(s, a)) && |D.Apply(s, a).readers| == |s.readers|
    ensures s.readers[r].held.Some? && a != D.Release(r) ==> D.Apply(s, a).readers[r].held.Some?
  {
    D.ShapedKept(s, a);
  }

  /** No producer step is possible on a dispatcher all of whose predecessors are quiet. */
  lemma StarvedProducer<T>(p: Pipeline<T>, i: nat)
    requires Inv(p) && p.finished && i < |p.disp|
    requires forall j :: 0 <= j < i ==> Quiet(p.disp[j])
    ensures !FeederHolds(p, i)
  {
    hide D.Inv, D.Shaped, Quiet;
    if i > 0 {
      var f := p.feeds[i - 1];
      assert Quiet(p.disp[f.from]);
      QuietIsEmpty(p.disp[f.from], f.slot);
    }
  }

  lemma ActKeepsClear<T>(p: Pipeline<T>, i: nat, a: D.Action<T>, j: nat, n: nat)
    requires Inv(p) && Enabled(p, Act(i, a)) && p.finished && j < |p.disp|
    requires forall k :: 0 <= k < j ==> Quiet(p.disp[k])
    requires ClearUpTo(p.disp[j], n)
    ensures ClearUpTo(Apply(p, Act(i, a)).disp[j], n)
  {
    hide D.Inv, D.Shaped, ClearUpTo;
    if i == j {
      StarvedProducer(p, i);
      ReadersOnlyRelease(p.disp[i], a, n);
    }
  }

  lemma ActKeepsProbe<T>(p: Pipeline<T>, i: nat, a: D.Action<T>)
    requires Inv(p) && Enabled(p, Act(i, a))
    ensures WellFormed(Apply(p, Act(i, a))) && ProbeSound(Apply(p, Act(i, a)))
  {
    hide D.Inv, D.Shaped, ClearUpTo;
    ActShaped(p, i, a);
    if !p.probe.Waiting? {
      var n := if p.probe.AtBlock? then p.probe.at else |p.disp|;
      assert forall k :: 0 <= k < n ==> Quiet(p.disp[k]);
      forall j | 0 <= j < n ensures Quiet(Apply(p, Act(i, a)).disp[j]) {
        ActKeepsClear(p, i, a, j, D.BLOCKS);
      }
      if p.probe.AtBlock? && n < |p.disp| {
        ActKeepsClear(p, i, a, n, p.probe.block);
      }
    }
  }

  lemma SameButProbe<T>(p: Pipeline<T>, x: Probe)
    requires WellFormed(p) && FeedersIdle(p)
    ensures WellFormed(p.(probe := x)) && FeedersIdle(p.(probe := x))
  {
    hide D.Shaped;
    var t := p.(probe := x);
    forall i | 0 <= i < |t.disp| ensures FeederHolds(t, i) || t.disp[i].pc.Idle? {
      assert FeederHolds(p, i) || p.disp[i].pc.Idle?;
    }
  }

  lemma LookSound<T>(p: Pipeline<T>)
    requires WellFormed(p) && ProbeSound(p) && p.finished
    ensures var t := p.(probe := LookOnce(p)); WellFormed(t) && ProbeSound(t)
  {
    hide Ordered;
    assert forall i :: 0 <= i < |p.disp| ==> |p.disp[i].refs| == D.BLOCKS;
  }

  lemma LookKeeps<T>(p: Pipeline<T>)
    requires Inv(p) && p.finished
    ensures Inv(Apply(p, Look))
  {
    hide D.Inv, D.Shaped, ProbeSound, LookOnce, WellFormed, FeedersIdle;
    SameButProbe(p, LookOnce(p));
    LookSound(p);
  }

  lemma OtherKeeps<T>(p: Pipeline<T>, s: Step<T>)
    requires Inv(p) && Enabled(p, s) && !s.Act? && !s.Look?
    ensures Inv(Apply(p, s))
  {
    hide D.Inv, D.Shaped, ClearUpTo;
    if s.Submit? && (p.probe.AtQueue? || p.probe.Through?) {
      assert Quiet(p.disp[s.i]);
      QuietIsEmpty(p.disp[s.i], s.r);
    }
  }

  /** Every step of every interleaving keeps the invariant. */
  lemma InvKept<T>(p: Pipeline<T>, s: Step<T>)
    requires Inv(p) && Enabled(p, s)
    ensures Inv(Apply(p, s))
  {
    if s.Act? {
      hide D.Inv, WellFormed, FeedersIdle, ProbeSound, Enabled, Apply;
      ActKeepsParts(p, s.i, s.a);
      ActKeepsProbe(p, s.i, s.a);
    } else if s.Look? {
      LookKeeps(p);
    } else {
      OtherKeeps(p, s);
    }
  }

  // -- main results -----------------------------------------------------------------------------------

  /** Reader counts per dispatcher, and who feeds it: the service's K lanes.  Dispatcher 0 is RF, 1..K
      are the sub lanes, K+1..2K the output lanes: the order in which the drain visits them. */
  function ServiceFeeds(k: nat): (feeds: seq<Feed>)
    ensures |feeds| == 2 * k
  {
    seq(2 * k, i requires 0 <= i < 2 * k => if i < k then Feed(0, i) else Feed(1 + (i - k), 0))
  }

  function ServiceReaders(k: nat, channels: seq<nat>): (n: seq<nat>)
    requires |channels| == k
    ensures |n| == 2 * k + 1
  {
    [k] + seq(k, _ => 1) + channels
  }

  /** A session before the replay starts, with any feeding order. */
  ghost function Initial<T>(readers: seq<nat>, feeds: seq<Feed>, queues: nat, capacity: nat, blank: T): (p: Pipeline<T>)
    requires |readers| == |feeds| + 1
  {
    Pipeline(seq(|readers|, i requires 0 <= i < |readers| => D.Fresh(readers[i], blank, true)), feeds,
             seq(queues, _ => Queue(0, 0)), capacity, false, Waiting)
  }

  ghost predicate FeedsExist(readers: seq<nat>, feeds: seq<Feed>) {
    && |readers| == |feeds| + 1 && Ordered(feeds)
    && forall i :: 0 <= i < |feeds| ==> feeds[i].slot < readers[feeds[i].from]
  }

  /** The drain visits the service's dispatchers in an order in which every feeder comes first, and every reader
      of RF and of the sub lanes feeds a dispatcher. */
  lemma ServiceOrdered(k: nat, channels: seq<nat>)
    requires |channels| == k
    ensures FeedsExist(ServiceReaders(k, channels), ServiceFeeds(k))
    ensures forall i, r :: 0 <= i <= k && 0 <= r < ServiceReaders(k, channels)[i] ==> Feed(i, r) in ServiceFeeds(k)
  {
    forall i, r | 0 <= i <= k && 0 <= r < ServiceReaders(k, channels)[i] ensures Feed(i, r) in ServiceFeeds(k) {
      var at := if i == 0 then r else k + i - 1;
      assert ServiceFeeds(k)[at] == Feed(i, r);
    }
  }

  lemma InitiallyInv<T>(readers: seq<nat>, feeds: seq<Feed>, queues: nat, capacity: nat, blank: T)
    requires FeedsExist(readers, feeds)
    ensures Inv(Initial(readers, feeds, queues, capacity, blank))
  {
    hide D.Inv;
    var p := Initial(readers, feeds, queues, capacity, blank);
    forall i | 0 <= i < |p.disp| ensures D.Inv(p.disp[i]) && D.Shaped(p.disp[i]) {
      D.InitiallyInv(readers[i], blank, true);
      InvIsShaped(p.disp[i]);
    }
  }

  lemma InvIsShaped<T>(s: D.State<T>)
    requires D.Inv(s)
    ensures D.Shaped(s)
  {
  }

  ghost predicate Run<T>(p: Pipeline<T>, steps: seq<Step<T>>, t: Pipeline<T>)
    decreases |steps|
  {
    if |steps| == 0 then p == t
    else WellFormed(p) && Enabled(p, steps[0]) && Run(Apply(p, steps[0]), steps[1..], t)
  }

  lemma {:induction false} InvAlongRuns<T>(p: Pipeline<T>, steps: seq<Step<T>>, t: Pipeline<T>)
    requires Inv(p) && Run(p, steps, t)
    ensures Inv(t)
    decreases |steps|
  {
    hide Inv, Apply, Enabled;
    if |steps| > 0 {
      InvKept(p, steps[0]);
      InvAlongRuns(Apply(p, steps[0]), steps[1..], t);
    }
  }

  /** Nothing is left and nothing was lost. */
  ghost predicate Drained<T>(p: Pipeline<T>) {
    && (forall i, b :: 0 <= i < |p.disp| && 0 <= b < |p.disp[i].refs| ==> p.disp[i].refs[b] == 0)
    && (forall i, r :: 0 <= i < |p.disp| && 0 <= r < |p.disp[i].readers| ==>
          ReaderDone(p.disp[i], p.disp[i].readers[r]))
    && (forall q :: 0 <= q < |p.queues| ==> p.queues[q].popped == p.queues[q].submitted)
  }

  /** The reader holds nothing, waits on nothing, and has received everything its producer offered. */
  ghost predicate ReaderDone<T>(s: D.State<T>, x: D.Reader<T>) {
    x.ring == [] && x.held.None? && x.popped == s.offered && s.pc.Idle?
  }

  lemma DoneWhenQuiet<T>(s: D.State<T>, r: nat)
    requires D.Inv(s) && s.blocking && Quiet(s) && s.pc.Idle? && r < |s.readers|
    ensures ReaderDone(s, s.readers[r])
  {
    QuietIsEmpty(s, r);
    D.DroplessIsPrefix(s, r);
    assert D.ReaderLedger(s, r);
    assert s.readers[r].popped + D.Waiting(s.data, []) == s.readers[r].popped;
  }

  /** The drain is sound: on every run of a session, once the drain is through, no block is referenced
      anywhere, every reader has popped exactly what its producer offered, and every submitted event
      has been popped. */
  lemma DrainSound<T>(readers: seq<nat>, feeds: seq<Feed>, queues: nat, capacity: nat, blank: T,
                      steps: seq<Step<T>>, t: Pipeline<T>)
    requires FeedsExist(readers, feeds)
    requires Run(Initial(readers, feeds, queues, capacity, blank), steps, t) && t.probe.Through?
    ensures Drained(t)
  {
    InitiallyInv(readers, feeds, queues, capacity, blank);
    InvAlongRuns(Initial(readers, feeds, queues, capacity, blank), steps, t);
    ThroughIsDrained(t);
  }

  lemma ThroughIsDrained<T>(t: Pipeline<T>)
    requires Inv(t) && t.probe.Through?
    ensures Drained(t)
  {
    hide D.Inv, D.Shaped;
    forall i | 0 <= i < |t.disp| ensures Quiet(t.disp[i]) && t.disp[i].pc.Idle? && |t.disp[i].refs| == D.BLOCKS {
      StarvedProducer(t, i);
      assert FeederHolds(t, i) || t.disp[i].pc.Idle?;
      InvIsSized(t.disp[i]);
    }
    forall i, r | 0 <= i < |t.disp| && 0 <= r < |t.disp[i].readers|
      ensures ReaderDone(t.disp[i], t.disp[i].readers[r])
    {
      DoneWhenQuiet(t.disp[i], r);
    }
  }

  lemma InvIsSized<T>(s: D.State<T>)
    requires D.Inv(s)
    ensures |s.refs| == D.BLOCKS
  {
  }

  /** ... and nothing comes back: whatever runs on, the pipeline stays drained, with the same samples
      offered and the same events counted. */
  lemma {:induction false} DrainedForGood<T>(p: Pipeline<T>, steps: seq<Step<T>>, t: Pipeline<T>)
    requires Inv(p) && p.probe.Through? && Run(p, steps, t)
    ensures Drained(t) && t.probe.Through? && t.queues == p.queues && |t.disp| == |p.disp|
    ensures forall i :: 0 <= i < |p.disp| ==> t.disp[i].offered == p.disp[i].offered
    decreases |steps|
  {
    if |steps| == 0 {
      ThroughIsDrained(p);
    } else {
      InvKept(p, steps[0]);
      NothingMoves(p, steps[0]);
      DrainedForGood(Apply(p, steps[0]), steps[1..], t);
    }
  }

  lemma NothingMoves<T>(p: Pipeline<T>, s: Step<T>)
    requires Inv(p) && p.probe.Through? && Enabled(p, s)
    ensures var t := Apply(p, s);
            && t.probe.Through? && t.queues == p.queues && |t.disp| == |p.disp|
            && forall i :: 0 <= i < |p.disp| ==> t.disp[i].offered == p.disp[i].offered
  {
    hide D.Inv, D.Shaped, D.Apply, D.Enabled, ClearUpTo;
    if s.Act? {
      StarvedProducer(p, s.i);
      D.ReaderActionsOfferNothing(p.disp[s.i], s.a);
    } else if s.Submit? {
      assert Quiet(p.disp[s.i]);
      QuietIsEmpty(p.disp[s.i], s.r);
    }
  }

  /** How far the drain thread still has to go when everything it meets is quiet. */
  ghost function Rank(p: Probe): nat {
    match p case Waiting => 3 case AtBlock(_, _) => 2 case AtQueue(_) => 1 case Through => 0
  }

  ghost function Ahead(p: Probe, n: nat): nat {
    match p
    case AtBlock(i, _) => if i <= n then n - i else 0
    case _ => 0
  }

  ghost function Within(p: Probe, n: nat): nat {
    match p
    case AtBlock(_, b) => if b <= D.BLOCKS then D.BLOCKS - b else 0
    case AtQueue(q) => if q <= n then n - q else 0
    case _ => 0
  }

  /** The check is not too strict either: once everything is quiet and the queues are empty, the drain thread,
      left alone, gets through. */
  lemma {:induction false} DrainCompletes<T>(p: Pipeline<T>) returns (steps: seq<Step<T>>)
    requires Inv(p) && p.finished && AllQuiet(p) && QueuesEmpty(p, |p.queues|)
    ensures Run(p, steps, p.(probe := Through))
    ensures forall i :: 0 <= i < |steps| ==> steps[i] == Look
    decreases Rank(p.probe), Ahead(p.probe, |p.disp|), Within(p.probe, |p.queues|)
  {
    if p.probe.Through? {
      steps := [];
    } else {
      hide D.Inv, D.Shaped;
      InvKept(p, Look);
      var next := Apply(p, Look);
      MovesOn(p);
      var rest := DrainCompletes(next);
      steps := [Look] + rest;
      assert steps[1..] == rest;
    }
  }

  /** What is quiet is passed over. */
  lemma MovesOn<T>(p: Pipeline<T>)
    requires Inv(p) && AllQuiet(p) && QueuesEmpty(p, |p.queues|) && !p.probe.Through?
    ensures var n := LookOnce(p);
            || Rank(n) < Rank(p.probe)
            || (Rank(n) == Rank(p.probe) && Ahead(n, |p.disp|) < Ahead(p.probe, |p.disp|))
            || (Rank(n) == Rank(p.probe) && Ahead(n, |p.disp|) == Ahead(p.probe, |p.disp|)
                && Within(n, |p.queues|) < Within(p.probe, |p.queues|))
  {
    hide D.Inv;
    if p.probe.AtBlock? && p.probe.at < |p.disp| {
      InvIsSized(p.disp[p.probe.at]);
      assert Quiet(p.disp[p.probe.at]);
    }
  }
}
