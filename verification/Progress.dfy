/** No deadlock: whatever has happened in a session, there is a way on that ends with the drain through and
    everything delivered. */
module Progress {
  import D = Dispatcher
  import opened Drain

  lemma {:induction false} RunsJoin<T>(p: Pipeline<T>, a: seq<Step<T>>, q: Pipeline<T>, b: seq<Step<T>>, r: Pipeline<T>)
    requires Run(p, a, q) && Run(q, b, r)
    ensures Run(p, a + b, r)
    decreases |a|
  {
    hide Apply, WellFormed, Enabled;
    if |a| == 0 {
      assert a + b == b;
    } else {
      assert (a + b)[1..] == a[1..] + b;
      RunsJoin(Apply(p, a[0]), a[1..], q, b, r);
    }
  }

  /** Dispatcher i may take these actions while the others stand still. */
  ghost predicate Allowed<T>(p: Pipeline<T>, i: nat, actions: seq<D.Action<T>>)
    requires WellFormed(p) && i < |p.disp|
  {
    && (forall k :: 0 <= k < |actions| ==> !actions[k].Abandon?)
    && (FeederHolds(p, i) || forall k :: 0 <= k < |actions| ==> !D.IsProducerAction(actions[k]))
    && ((forall k :: 0 <= k < |p.feeds| && p.feeds[k].from == i ==> p.disp[k + 1].pc.Idle?)
        || forall k :: 0 <= k < |actions| ==> !actions[k].Release?)
  }

  function Lifted<T>(i: nat, actions: seq<D.Action<T>>): (steps: seq<Step<T>>) {
    seq(|actions|, k requires 0 <= k < |actions| => Act(i, actions[k]))
  }

  /** A dispatcher's run is a run of the session. */
  lemma {:induction false} LiftedRuns<T>(p: Pipeline<T>, i: nat, actions: seq<D.Action<T>>, t: D.State<T>)
    requires WellFormed(p) && i < |p.disp| && D.Run(p.disp[i], actions, t) && Allowed(p, i, actions)
    ensures Run(p, Lifted(i, actions), p.(disp := p.disp[i := t]))
    decreases |actions|
  {
    if |actions| == 0 {
      assert p.disp[i := t] == p.disp;
    } else {
      var a := actions[0];
      hide D.Shaped, D.Apply, D.Enabled;
      assert Enabled(p, Act(i, a)) by {
        FirstAllowed(p, i, actions);
      }
      ActShaped(p, i, a);
      var q := Apply(p, Act(i, a));
      StillAllowed(p, i, actions);
      LiftedRuns(q, i, actions[1..], t);
      assert Lifted(i, actions)[1..] == Lifted(i, actions[1..]);
      assert q.disp[i := t] == p.disp[i := t];
    }
  }

  lemma FirstAllowed<T>(p: Pipeline<T>, i: nat, actions: seq<D.Action<T>>)
    requires WellFormed(p) && i < |p.disp| && |actions| > 0 && Allowed(p, i, actions)
    requires D.Enabled(p.disp[i], actions[0])
    ensures Enabled(p, Act(i, actions[0]))
  {
    hide D.Shaped, D.Enabled;
  }

  lemma StillAllowed<T>(p: Pipeline<T>, i: nat, actions: seq<D.Action<T>>)
    requires WellFormed(p) && i < |p.disp| && |actions| > 0 && Allowed(p, i, actions)
    requires Enabled(p, Act(i, actions[0])) && WellFormed(Apply(p, Act(i, actions[0])))
    ensures Allowed(Apply(p, Act(i, actions[0])), i, actions[1..])
  {
    hide D.Shaped, D.Apply, D.Enabled;
    var q := Apply(p, Act(i, actions[0]));
    assert forall k :: 0 <= k < |actions[1..]| ==> actions[1..][k] == actions[k + 1];
    assert i > 0 ==> p.feeds[i - 1].from < i;
    forall k | 0 <= k < |p.feeds| && p.feeds[k].from == i ensures q.disp[k + 1] == p.disp[k + 1] {
    }
  }

  /** Idle, and nothing in any ring or view. */
  ghost predicate Emptied<T>(s: D.State<T>) {
    s.pc.Idle? && forall r :: 0 <= r < |s.readers| ==> D.Empty(s.readers[r])
  }

  lemma EmptiedIsQuiet<T>(s: D.State<T>)
    requires D.Inv(s) && Emptied(s)
    ensures Quiet(s)
  {
    forall b: nat | b < D.BLOCKS ensures s.refs[b] == 0 {
      D.FreshRefs(s.readers, b);
    }
  }

  /** A dispatcher can be emptied: its readers work off, its producer finishes, its readers work off. */
  lemma EmptyOne<T>(s: D.State<T>) returns (actions: seq<D.Action<T>>, t: D.State<T>)
    requires D.Inv(s) && s.blocking
    ensures D.Run(s, actions, t) && D.Inv(t) && Emptied(t) && t.blocking && |t.readers| == |s.readers|
    ensures forall k :: 0 <= k < |actions| ==> !actions[k].Abandon?
    ensures s.pc.Idle? ==> forall k :: 0 <= k < |actions| ==> !D.IsProducerAction(actions[k])
  {
    hide D.Inv, D.Run;
    var a, u := D.AllWorkOff(s, |s.readers|);
    var b, v := D.ProducerFinishes(u);
    var c, w := D.AllWorkOff(v, |v.readers|);
    D.RunsJoin(s, a, u, b, v);
    D.RunsJoin(s, a + b, v, c, w);
    actions, t := a + b + c, w;
  }

  /** Emptying dispatcher i when all behind it are idle. */
  lemma EmptyAt<T>(p: Pipeline<T>, i: nat) returns (steps: seq<Step<T>>, q: Pipeline<T>)
    requires Inv(p) && i < |p.disp|
    requires forall j :: i < j < |p.disp| ==> p.disp[j].pc.Idle?
    ensures Run(p, steps, q) && Inv(q)
    ensures |q.disp| == |p.disp| && Emptied(q.disp[i]) && q.finished == p.finished && q.queues == p.queues
    ensures forall j :: 0 <= j < |p.disp| && j != i ==> q.disp[j] == p.disp[j]
  {
    hide D.Inv, D.Run, D.Shaped;
    var actions, t := EmptyOne(p.disp[i]);
    assert FeederHolds(p, i) || p.disp[i].pc.Idle?;
    assert Allowed(p, i, actions);
    LiftedRuns(p, i, actions, t);
    steps, q := Lifted(i, actions), p.(disp := p.disp[i := t]);
    InvAlongRuns(p, steps, q);
  }

  /** From the last dispatcher to dispatcher n. */
  lemma {:induction false} EmptyFrom<T>(p: Pipeline<T>, n: nat) returns (steps: seq<Step<T>>, q: Pipeline<T>)
    requires Inv(p) && n <= |p.disp|
    ensures Run(p, steps, q) && Inv(q)
    ensures |q.disp| == |p.disp| && q.finished == p.finished && q.queues == p.queues
    ensures forall j :: n <= j < |q.disp| ==> Emptied(q.disp[j])
    decreases |p.disp| - n
  {
    hide Inv, Emptied;
    if n == |p.disp| {
      steps, q := [], p;
    } else {
      var a, u := EmptyFrom(p, n + 1);
      assert forall j :: n < j < |u.disp| ==> u.disp[j].pc.Idle? by {
        EmptiedIdle(u, n + 1);
      }
      var b: seq<Step<T>>;
      b, q := EmptyAt(u, n);
      RunsJoin(p, a, u, b, q);
      steps := a + b;
    }
  }

  lemma EmptiedIdle<T>(p: Pipeline<T>, n: nat)
    requires forall j :: n <= j < |p.disp| ==> Emptied(p.disp[j])
    ensures forall j :: n <= j < |p.disp| ==> p.disp[j].pc.Idle?
  {
    forall j | n <= j < |p.disp| ensures p.disp[j].pc.Idle? {
      assert Emptied(p.disp[j]);
    }
  }

  /** The collectors can take every event. */
  lemma {:induction false} TakeEvents<T>(p: Pipeline<T>, n: nat) returns (steps: seq<Step<T>>, q: Pipeline<T>)
    requires Inv(p) && n <= |p.queues| && QueuesCounted(p)
    ensures Run(p, steps, q) && Inv(q) && QueuesCounted(q)
    ensures q.disp == p.disp && q.finished == p.finished && |q.queues| == |p.queues| && QueuesEmpty(q, n)
    ensures forall k :: n <= k < |p.queues| ==> q.queues[k] == p.queues[k]
    decreases n, if n > 0 then p.queues[n - 1].submitted - p.queues[n - 1].popped else 0
  {
    hide Inv;
    if n == 0 {
      steps, q := [], p;
    } else if p.queues[n - 1].submitted == p.queues[n - 1].popped {
      steps, q := TakeEvents(p, n - 1);
    } else {
      OnePopped(p, n - 1);
      var u := Apply(p, PopEvent(n - 1));
      var rest: seq<Step<T>>;
      rest, q := TakeEvents(u, n);
      steps := [PopEvent(n - 1)] + rest;
      assert steps[1..] == rest;
    }
  }

  ghost predicate QueuesCounted<T>(p: Pipeline<T>) {
    forall k :: 0 <= k < |p.queues| ==> p.queues[k].popped <= p.queues[k].submitted
  }

  lemma OnePopped<T>(p: Pipeline<T>, k: nat)
    requires Inv(p) && QueuesCounted(p) && k < |p.queues| && p.queues[k].popped != p.queues[k].submitted
    ensures WellFormed(p) && Enabled(p, PopEvent(k)) && Inv(Apply(p, PopEvent(k)))
    ensures QueuesCounted(Apply(p, PopEvent(k)))
  {
    hide D.Inv, D.Shaped;
    InvKept(p, PopEvent(k));
  }

  lemma CountedStep<T>(p: Pipeline<T>, s: Step<T>)
    requires WellFormed(p) && Enabled(p, s) && QueuesCounted(p)
    ensures QueuesCounted(Apply(p, s))
  {
    hide D.Shaped, D.Apply, D.Enabled;
  }

  lemma {:induction false} CountedAlongRuns<T>(p: Pipeline<T>, steps: seq<Step<T>>, t: Pipeline<T>)
    requires Run(p, steps, t) && QueuesCounted(p)
    ensures QueuesCounted(t)
    decreases |steps|
  {
    hide Apply, WellFormed, Enabled, QueuesCounted;
    if |steps| > 0 {
      CountedStep(p, steps[0]);
      CountedAlongRuns(Apply(p, steps[0]), steps[1..], t);
    }
  }

  /** The file's producer stops, if it has not yet. */
  lemma FileStops<T>(p: Pipeline<T>) returns (steps: seq<Step<T>>, q: Pipeline<T>)
    requires Inv(p) && p.disp[0].pc.Idle?
    ensures Run(p, steps, q) && Inv(q) && q == p.(finished := true)
  {
    if p.finished {
      steps, q := [], p;
    } else {
      hide D.Inv, D.Shaped;
      InvKept(p, FileDone);
      steps, q := [FileDone], Apply(p, FileDone);
      assert Run(q, steps[1..], q);
    }
  }

  lemma AllEmptied<T>(p: Pipeline<T>)
    requires Inv(p) && forall j :: 0 <= j < |p.disp| ==> Emptied(p.disp[j])
    ensures AllQuiet(p)
  {
    hide D.Inv, Quiet, Emptied;
    forall j | 0 <= j < |p.disp| ensures Quiet(p.disp[j]) {
      EmptiedIsQuiet(p.disp[j]);
    }
  }

  /** No state of a session is a dead end: from wherever it has got to, in any interleaving, there is a way on
      after which the drain is through, every block is free, every reader has popped all that its producer
      offered, and every event has been taken. */
  lemma AlwaysDrainable<T>(readers: seq<nat>, feeds: seq<Feed>, queues: nat, capacity: nat, blank: T,
                           steps: seq<Step<T>>, p: Pipeline<T>) returns (more: seq<Step<T>>, t: Pipeline<T>)
    requires FeedsExist(readers, feeds) && Run(Initial(readers, feeds, queues, capacity, blank), steps, p)
    ensures Run(p, more, t) && t.probe.Through? && Drained(t)
  {
    var start := Initial(readers, feeds, queues, capacity, blank);
    InitiallyInv(readers, feeds, queues, capacity, blank);
    InvAlongRuns(start, steps, p);
    CountedAlongRuns(start, steps, p);
    hide Initial, Run, Inv, Emptied, QueuesEmpty, QueuesCounted;
    var a, u := EmptyFrom(p, 0);
    EmptiedIdle(u, 0);
    CountedAlongRuns(p, a, u);
    Sized(u);
    var b, v := FileStops(u);
    CountedAlongRuns(u, b, v);
    var c, w := TakeEvents(v, |v.queues|);
    AllEmptied(w);
    var d := DrainCompletes(w);
    t := w.(probe := Through);
    RunsJoin(p, a, u, b, v);
    RunsJoin(p, a + b, v, c, w);
    RunsJoin(p, a + b + c, w, d, t);
    more := a + b + c + d;
    InvAlongRuns(p, more, t);
    ThroughIsDrained(t);
  }

  lemma Sized<T>(p: Pipeline<T>)
    requires Inv(p)
    ensures |p.disp| > 0
  {
  }

  /** Events handed to queue q, and taken from it, in a run. */
  function Submitted<T>(steps: seq<Step<T>>, q: nat): (n: nat) {
    if |steps| == 0 then 0
    else (if steps[0].Submit? && steps[0].q == q then 1 else 0) + Submitted(steps[1..], q)
  }

  function Taken<T>(steps: seq<Step<T>>, q: nat): (n: nat) {
    if |steps| == 0 then 0
    else (if steps[0].PopEvent? && steps[0].q == q then 1 else 0) + Taken(steps[1..], q)
  }

  lemma {:induction false} EventsCounted<T>(p: Pipeline<T>, steps: seq<Step<T>>, t: Pipeline<T>, q: nat)
    requires Run(p, steps, t) && q < |p.queues|
    ensures |t.queues| == |p.queues|
    ensures t.queues[q] == Queue(p.queues[q].submitted + Submitted(steps, q), p.queues[q].popped + Taken(steps, q))
    decreases |steps|
  {
    hide D.Shaped, D.Apply, D.Enabled;
    if |steps| > 0 {
      EventsCounted(Apply(p, steps[0]), steps[1..], t, q);
    }
  }

  /** When the drain is through, each queue has been relieved of exactly as many events as were handed to it. */
  lemma EveryEventTaken<T>(readers: seq<nat>, feeds: seq<Feed>, queues: nat, capacity: nat, blank: T,
                           steps: seq<Step<T>>, t: Pipeline<T>, q: nat)
    requires FeedsExist(readers, feeds) && q < queues
    requires Run(Initial(readers, feeds, queues, capacity, blank), steps, t) && t.probe.Through?
    ensures Submitted(steps, q) == Taken(steps, q)
    ensures q < |t.queues| && t.queues[q].submitted == Submitted(steps, q)
  {
    DrainSound(readers, feeds, queues, capacity, blank, steps, t);
    EventsCounted(Initial(readers, feeds, queues, capacity, blank), steps, t, q);
  }
}
