/** The block dispatcher as interleaved atomic steps: one producer that acquires a pool block, fills it
    and offers it to every reader's bounded ring, and readers that pop, hold and release blocks.
    Each step is one access to shared state: one refcount operation, or one ring operation under the
    reader's mutex. */
module Dispatcher {
  import opened Wrappers

  const BLOCKS: nat := 64
  const RING: nat := 8
  const BLOCK_SAMPLES: nat := 262144

  /** A reader: its ring of block numbers, the block its view holds, the drop counter, and the history
      of the samples delivered to its ring and of those it has popped. */
  datatype Reader<D> = Reader(ring: seq<nat>, held: Option<nat>, dropped: nat, delivered: seq<D>, popped: seq<D>)

  /** Where the producer stands. */
  datatype Pc =
    | Idle
    | Scan(tried: nat)          // looking for a free block
    | Found(block: nat)         // seen free, not yet claimed
    | Owned(block: nat)         // claimed; may be filled
    | Check(block: nat, at: nat)   // backpressure: readers before `at` had room
    | Push(block: nat, at: nat)    // offered to the readers before `at`
    | Taken(block: nat, at: nat)   // one more reference taken, for reader `at`
    | Undo(block: nat, at: nat)    // reader `at` was full; that reference must go back

  datatype State<D> = State(refs: seq<nat>, data: seq<D>, next: nat, pc: Pc, readers: seq<Reader<D>>,
                            blocking: bool, offered: seq<D>)

  datatype Action<D> =
    | Acquire | ScanOne | GiveUp | Claim | Fill(samples: D) | Offer | CheckOne | Abandon
    | TakeRef | TryPush | UndoRef | Finish
    | Release(reader: nat) | Pop(reader: nat)

  predicate IsProducerAction<D>(a: Action<D>) {
    !a.Release? && !a.Pop?
  }

  predicate Enabled<D>(s: State<D>, a: Action<D>) {
    match a
    case Acquire => s.pc == Idle
    case ScanOne => s.pc.Scan? && s.pc.tried < BLOCKS
    case GiveUp => s.pc.Scan? && s.pc.tried >= BLOCKS
    case Claim => s.pc.Found?
    case Fill(_) => s.pc.Owned?
    case Offer => s.pc.Owned?
    case CheckOne => s.pc.Check?
    case Abandon => s.pc.Check?
    case TakeRef => s.pc.Push? && s.pc.at < |s.readers|
    case TryPush => s.pc.Taken?
    case UndoRef => s.pc.Undo?
    case Finish => s.pc.Push? && s.pc.at >= |s.readers|
    case Release(r) => r < |s.readers| && s.readers[r].held.Some?
    case Pop(r) => r < |s.readers| && s.readers[r].held.None? && s.readers[r].ring != []
  }

  /** Shape: everything an index can refer to is there. */
  ghost predicate Shaped<D>(s: State<D>) {
    && |s.refs| == |s.data| == BLOCKS && s.next < BLOCKS
    && (s.pc.Idle? || s.pc.Scan? || s.pc.block < BLOCKS)
    && (s.pc.Check? || s.pc.Push? ==> s.pc.at <= |s.readers|)
    && (s.pc.Taken? || s.pc.Undo? ==> s.pc.at < |s.readers|)
    && forall r :: 0 <= r < |s.readers| ==> ReaderShaped(s.readers[r])
  }

  ghost predicate ReaderShaped<D>(r: Reader<D>) {
    && |r.ring| <= RING
    && (forall i :: 0 <= i < |r.ring| ==> r.ring[i] < BLOCKS)
    && (r.held.Some? ==> r.held.value < BLOCKS)
  }

  function AddRef(refs: seq<nat>, b: nat): (r: seq<nat>)
    requires b < |refs|
  {
    refs[b := refs[b] + 1]
  }

  /** Release of a reference that is held. */
  function DropRef(refs: seq<nat>, b: nat): (r: seq<nat>)
    requires b < |refs|
  {
    refs[b := if refs[b] > 0 then refs[b] - 1 else 0]
  }

  function Apply<D>(s: State<D>, a: Action<D>): (t: State<D>)
    requires Shaped(s) && Enabled(s, a)
  {
    match a
    case Acquire => s.(pc := Scan(0))
    case ScanOne =>
      var b := (s.next + s.pc.tried) % BLOCKS;
      s.(pc := if s.refs[b] == 0 then Found(b) else Scan(s.pc.tried + 1))
    case GiveUp => s.(pc := Idle)
    case Claim => s.(next := (s.pc.block + 1) % BLOCKS, refs := AddRef(s.refs, s.pc.block), pc := Owned(s.pc.block))
    case Fill(v) => s.(data := s.data[s.pc.block := v])
    case Offer =>
      if s.blocking then s.(pc := Check(s.pc.block, 0))
      else s.(pc := Push(s.pc.block, 0), offered := s.offered + [s.data[s.pc.block]])
    case CheckOne =>
      if s.pc.at == |s.readers| then s.(pc := Push(s.pc.block, 0), offered := s.offered + [s.data[s.pc.block]])
      else if |s.readers[s.pc.at].ring| == RING then s.(pc := Check(s.pc.block, 0))
      else s.(pc := Check(s.pc.block, s.pc.at + 1))
    case Abandon => s.(refs := DropRef(s.refs, s.pc.block), pc := Idle)
    case TakeRef => s.(refs := AddRef(s.refs, s.pc.block), pc := Taken(s.pc.block, s.pc.at))
    case TryPush =>
      var r := s.readers[s.pc.at];
      if |r.ring| == RING then s.(pc := Undo(s.pc.block, s.pc.at))
      else
        s.(readers := s.readers[s.pc.at := r.(ring := r.ring + [s.pc.block],
                                               delivered := r.delivered + [s.data[s.pc.block]])],
           pc := Push(s.pc.block, s.pc.at + 1))
    case UndoRef =>
      var r := s.readers[s.pc.at];
      s.(refs := DropRef(s.refs, s.pc.block), readers := s.readers[s.pc.at := r.(dropped := r.dropped + 1)],
         pc := Push(s.pc.block, s.pc.at + 1))
    case Finish => s.(refs := DropRef(s.refs, s.pc.block), pc := Idle)
    case Release(i) =>
      var r := s.readers[i];
      s.(refs := DropRef(s.refs, r.held.value), readers := s.readers[i := r.(held := None)])
    case Pop(i) =>
      var r := s.readers[i];
      s.(readers := s.readers[i := r.(ring := r.ring[1..], held := Some(r.ring[0]),
                                      popped := r.popped + [s.data[r.ring[0]]])])
  }

  // -- reference counting ---------------------------------------------------------------------------

  /** References to block b that belong to one reader. */
  function RefsOf<D>(r: Reader<D>, b: nat): (n: nat) {
    multiset(r.ring)[b] + (if r.held == Some(b) then 1 else 0)
  }

  function ReaderRefs<D>(readers: seq<Reader<D>>, b: nat): (n: nat) {
    if |readers| == 0 then 0 else RefsOf(readers[0], b) + ReaderRefs(readers[1..], b)
  }

  /** References to block b that belong to the producer. */
  function ProducerRefs(pc: Pc, b: nat): (n: nat) {
    match pc
    case Idle => 0
    case Scan(_) => 0
    case Found(_) => 0
    case Owned(c) => if c == b then 1 else 0
    case Check(c, _) => if c == b then 1 else 0
    case Push(c, _) => if c == b then 1 else 0
    case Taken(c, _) => if c == b then 2 else 0
    case Undo(c, _) => if c == b then 2 else 0
  }

  /** Every reference is accounted for. */
  ghost predicate Conserved<D>(s: State<D>)
    requires |s.refs| == BLOCKS
  {
    forall b: nat :: b < BLOCKS ==> s.refs[b] == ProducerRefs(s.pc, b) + ReaderRefs(s.readers, b)
  }

  /** The producer's block is its own until it is offered: nobody else refers to it. */
  ghost predicate Exclusive<D>(s: State<D>)
    requires |s.refs| == BLOCKS
  {
    && (s.pc.Found? ==> s.pc.block < BLOCKS && s.refs[s.pc.block] == 0)
    && (s.pc.Owned? || s.pc.Check? ==> s.pc.block < BLOCKS && s.refs[s.pc.block] == 1)
  }

  // -- what readers receive ---------------------------------------------------------------------------

  /** The samples waiting in a ring, oldest first. */
  function Waiting<D>(data: seq<D>, ring: seq<nat>): (w: seq<D>)
    requires forall i :: 0 <= i < |ring| ==> ring[i] < |data|
  {
    seq(|ring|, i requires 0 <= i < |ring| => data[ring[i]])
  }

  /** How many of the offered blocks reader r has been offered. */
  function Attempts<D>(s: State<D>, r: nat): (n: int) {
    if (s.pc.Push? || s.pc.Taken? || s.pc.Undo?) && s.pc.at <= r then |s.offered| - 1 else |s.offered|
  }

  ghost predicate IsSubsequence<D>(a: seq<D>, b: seq<D>) {
    |a| == 0 ||
    (|b| > 0 && (IsSubsequence(a, b[..|b| - 1])
                 || (a[|a| - 1] == b[|b| - 1] && IsSubsequence(a[..|a| - 1], b[..|b| - 1]))))
  }

  /** Reader r has popped, in order, a beginning of what was delivered to it; the rest waits in its ring,
      unchanged; delivered plus dropped is what was offered; and order is kept. */
  ghost predicate ReaderLedger<D>(s: State<D>, r: nat)
    requires Shaped(s) && r < |s.readers|
  {
    var x := s.readers[r];
    && x.delivered == x.popped + Waiting(s.data, x.ring)
    && 0 <= Attempts(s, r) && |x.delivered| + x.dropped == Attempts(s, r)
    && IsSubsequence(x.delivered, s.offered[..Attempts(s, r)])
  }

  /** Under backpressure every reader still to be served has room, and nothing was ever dropped. */
  ghost predicate RoomAhead<D>(s: State<D>)
    requires Shaped(s)
  {
    s.blocking ==>
      && !s.pc.Undo?
      && (forall r :: 0 <= r < |s.readers| ==> s.readers[r].dropped == 0)
      && (s.pc.Check? ==> forall r :: 0 <= r < s.pc.at ==> |s.readers[r].ring| < RING)
      && (s.pc.Push? || s.pc.Taken? ==> forall r :: s.pc.at <= r < |s.readers| ==> |s.readers[r].ring| < RING)
  }

  /** While a block is being offered it is the last one in the history, samples included. */
  ghost predicate Offering<D>(s: State<D>)
    requires Shaped(s)
  {
    s.pc.Push? || s.pc.Taken? || s.pc.Undo? ==>
      |s.offered| > 0 && s.offered[|s.offered| - 1] == s.data[s.pc.block]
  }

  ghost predicate Inv<D>(s: State<D>) {
    && Shaped(s) && Offering(s) && Conserved(s) && Exclusive(s) && RoomAhead(s)
    && forall r :: 0 <= r < |s.readers| ==> ReaderLedger(s, r)
  }

  /** A freshly reset dispatcher with n empty readers. */
  function Fresh<D>(n: nat, blank: D, blocking: bool): (s: State<D>) {
    State(seq(BLOCKS, _ => 0), seq(BLOCKS, _ => blank), 0, Idle,
          seq(n, _ => Reader([], None, 0, [], [])), blocking, [])
  }

  lemma {:induction false} FreshRefs<D>(readers: seq<Reader<D>>, b: nat)
    requires forall r :: 0 <= r < |readers| ==> readers[r].ring == [] && readers[r].held == None
    ensures ReaderRefs(readers, b) == 0
  {
    if |readers| > 0 {
      FreshRefs(readers[1..], b);
    }
  }

  lemma InitiallyInv<D>(n: nat, blank: D, blocking: bool)
    ensures Inv(Fresh(n, blank, blocking)) && Fresh(n, blank, blocking).next == 0
  {
    var s := Fresh(n, blank, blocking);
    forall b: nat | b < BLOCKS ensures ReaderRefs(s.readers, b) == 0 {
      FreshRefs(s.readers, b);
    }
  }

  lemma {:induction false} RefsUpdate<D>(readers: seq<Reader<D>>, r: nat, x: Reader<D>, b: nat)
    requires r < |readers|
    ensures ReaderRefs(readers[r := x], b) + RefsOf(readers[r], b) == ReaderRefs(readers, b) + RefsOf(x, b)
    ensures RefsOf(readers[r], b) <= ReaderRefs(readers, b)
  {
    hide RefsOf;
    if r == 0 {
      assert readers[0 := x][1..] == readers[1..];
    } else {
      assert readers[r := x][1..] == readers[1..][r - 1 := x];
      RefsUpdate(readers[1..], r - 1, x, b);
    }
  }

  /** A block without references from readers is in no ring and in no view. */
  lemma Unreferenced<D>(readers: seq<Reader<D>>, b: nat)
    requires ReaderRefs(readers, b) == 0
    ensures forall r :: 0 <= r < |readers| ==> b !in readers[r].ring && readers[r].held != Some(b)
  {
    forall r | 0 <= r < |readers| ensures RefsOf(readers[r], b) == 0 {
      RefsUpdate(readers, r, readers[r], b);
    }
  }

  // -- every step keeps the invariant -----------------------------------------------------------------

  lemma ShapedKept<D>(s: State<D>, a: Action<D>)
    requires Shaped(s) && Enabled(s, a)
    ensures Shaped(Apply(s, a)) && |Apply(s, a).readers| == |s.readers|
    ensures Apply(s, a).blocking == s.blocking
  {
    hide ReaderShaped;
    var t := Apply(s, a);
    if a.TryPush? {
      PushedShaped(s.readers[s.pc.at], s.pc.block, s.data[s.pc.block]);
    } else if a.UndoRef? {
      CountedShaped(s.readers[s.pc.at]);
    } else if a.Release? {
      CountedShaped(s.readers[a.reader]);
    } else if a.Pop? {
      PoppedShaped(s.readers[a.reader]);
    }
  }

  lemma PushedShaped<D>(x: Reader<D>, b: nat, v: D)
    requires ReaderShaped(x) && b < BLOCKS
    ensures |x.ring| <= RING
    ensures |x.ring| < RING ==> ReaderShaped(x.(ring := x.ring + [b], delivered := x.delivered + [v]))
  {
  }

  lemma CountedShaped<D>(x: Reader<D>)
    requires ReaderShaped(x)
    ensures ReaderShaped(x.(held := None)) && ReaderShaped(x.(dropped := x.dropped + 1))
    ensures x.held.Some? ==> x.held.value < BLOCKS
  {
  }

  lemma PoppedShaped<D>(x: Reader<D>)
    requires ReaderShaped(x) && x.ring != []
    ensures x.ring[0] < BLOCKS
    ensures forall p :: ReaderShaped(x.(ring := x.ring[1..], held := Some(x.ring[0]), popped := p))
  {
  }

  lemma RefsOfPushed<D>(r: Reader<D>, c: nat, v: D, b: nat)
    ensures RefsOf(r.(ring := r.ring + [c], delivered := r.delivered + [v]), b)
         == RefsOf(r, b) + (if c == b then 1 else 0)
  {
  }

  lemma RefsOfPopped<D>(r: Reader<D>, v: D, b: nat)
    requires r.ring != [] && r.held == None
    ensures RefsOf(r.(ring := r.ring[1..], held := Some(r.ring[0]), popped := r.popped + [v]), b) == RefsOf(r, b)
  {
    assert r.ring == [r.ring[0]] + r.ring[1..];
    assert multiset(r.ring) == multiset{r.ring[0]} + multiset(r.ring[1..]);
  }

  lemma RefsOfReleased<D>(r: Reader<D>, b: nat)
    ensures RefsOf(r.(held := None), b) + (if r.held == Some(b) then 1 else 0) == RefsOf(r, b)
    ensures RefsOf(r.(dropped := r.dropped + 1), b) == RefsOf(r, b)
  {
  }

  /** How a step changes the readers' references to b. */
  lemma ReaderRefsAfter<D>(s: State<D>, a: Action<D>, b: nat)
    requires Shaped(s) && Enabled(s, a)
    ensures var t := Apply(s, a);
            ReaderRefs(t.readers, b) == ReaderRefs(s.readers, b)
              + (if a.TryPush? && t.pc.Push? && s.pc.block == b then 1 else 0)
              - (if a.Release? && s.readers[a.reader].held == Some(b) then 1 else 0)
  {
    hide ReaderRefs, RefsOf;
    var t := Apply(s, a);
    if a.TryPush? && t.pc.Push? {
      RefsOfPushed(s.readers[s.pc.at], s.pc.block, s.data[s.pc.block], b);
      RefsUpdate(s.readers, s.pc.at, t.readers[s.pc.at], b);
    } else if a.UndoRef? {
      RefsOfReleased(s.readers[s.pc.at], b);
      RefsUpdate(s.readers, s.pc.at, t.readers[s.pc.at], b);
    } else if a.Release? {
      RefsOfReleased(s.readers[a.reader], b);
      RefsUpdate(s.readers, a.reader, t.readers[a.reader], b);
    } else if a.Pop? {
      RefsOfPopped(s.readers[a.reader], s.data[s.readers[a.reader].ring[0]], b);
      RefsUpdate(s.readers, a.reader, t.readers[a.reader], b);
    }
  }

  lemma ReferencedByHolder<D>(s: State<D>, i: nat)
    requires Shaped(s) && Conserved(s) && i < |s.readers| && s.readers[i].held.Some?
    ensures s.refs[s.readers[i].held.value] > ProducerRefs(s.pc, s.readers[i].held.value)
  {
    RefsUpdate(s.readers, i, s.readers[i], s.readers[i].held.value);
  }

  lemma ReferencedByRing<D>(s: State<D>, i: nat)
    requires Shaped(s) && Conserved(s) && i < |s.readers| && s.readers[i].ring != []
    ensures s.refs[s.readers[i].ring[0]] > ProducerRefs(s.pc, s.readers[i].ring[0])
  {
    RefsUpdate(s.readers, i, s.readers[i], s.readers[i].ring[0]);
  }

  lemma ReaderActionsOfferNothing<D>(s: State<D>, a: Action<D>)
    requires Shaped(s) && Enabled(s, a) && !IsProducerAction(a)
    ensures Apply(s, a).offered == s.offered
  {
  }

  lemma ConservedKept<D>(s: State<D>, a: Action<D>)
    requires Shaped(s) && Conserved(s) && Exclusive(s) && Enabled(s, a)
    ensures Conserved(Apply(s, a))
  {
    hide ReaderRefs;
    var t := Apply(s, a);
    ShapedKept(s, a);
    forall b: nat | b < BLOCKS ensures t.refs[b] == ProducerRefs(t.pc, b) + ReaderRefs(t.readers, b) {
      ReaderRefsAfter(s, a, b);
      if a.Release? {
        ReferencedByHolder(s, a.reader);
      }
    }
  }

  lemma ExclusiveKept<D>(s: State<D>, a: Action<D>)
    requires Shaped(s) && Conserved(s) && Exclusive(s) && Enabled(s, a)
    ensures Exclusive(Apply(s, a))
  {
    if a.Release? {
      ReferencedByHolder(s, a.reader);
    }
  }

  lemma RoomKept<D>(s: State<D>, a: Action<D>)
    requires Shaped(s) && RoomAhead(s) && Enabled(s, a)
    ensures Shaped(Apply(s, a)) && RoomAhead(Apply(s, a))
  {
    ShapedKept(s, a);
  }

  lemma WaitingUnderFill<D>(data: seq<D>, ring: seq<nat>, b: nat, v: D)
    requires b < |data| && b !in ring
    requires forall i :: 0 <= i < |ring| ==> ring[i] < |data|
    ensures Waiting(data[b := v], ring) == Waiting(data, ring)
  {
  }

  /** The producer writes only into a block that no reader can see. */
  lemma OwnedIsUnseen<D>(s: State<D>, r: nat)
    requires Shaped(s) && Conserved(s) && Exclusive(s) && s.pc.Owned? && r < |s.readers|
    ensures s.pc.block !in s.readers[r].ring && s.readers[r].held != Some(s.pc.block)
  {
    Unreferenced(s.readers, s.pc.block);
  }

  lemma SubsequenceExtends<D>(a: seq<D>, b: seq<D>, v: D)
    requires IsSubsequence(a, b)
    ensures IsSubsequence(a, b + [v]) && IsSubsequence(a + [v], b + [v])
  {
    assert (b + [v])[..|b|] == b && (a + [v])[..|a|] == a;
  }

  lemma LedgerKept<D>(s: State<D>, a: Action<D>, r: nat)
    requires Inv(s) && Enabled(s, a) && r < |s.readers|
    ensures Shaped(Apply(s, a)) && ReaderLedger(Apply(s, a), r)
  {
    hide Conserved, RoomAhead, IsSubsequence, Waiting, Exclusive, Offering, Apply, Attempts;
    ShapedKept(s, a);
    assert ReaderLedger(s, r);
    if a.Fill? {
      FillKeepsLedger(s, a, r);
    } else if a.Pop? && a.reader == r {
      PopKeepsLedger(s, a, r);
    } else if (a.TryPush? || a.UndoRef?) && s.pc.at == r {
      AttemptAccounted(s, a, r);
    } else {
      Untouched(s, a, r);
      OfferedPrefix(s, Apply(s, a), r);
    }
  }

  lemma FillKeepsLedger<D>(s: State<D>, a: Action<D>, r: nat)
    requires Inv(s) && Enabled(s, a) && a.Fill? && r < |s.readers|
    ensures Shaped(Apply(s, a)) && ReaderLedger(Apply(s, a), r)
  {
    hide RoomAhead, IsSubsequence, Waiting, Conserved, Exclusive, Offering;
    OwnedIsUnseen(s, r);
    ShapedKept(s, a);
    assert ReaderLedger(s, r);
    WaitingUnderFill(s.data, s.readers[r].ring, s.pc.block, a.samples);
  }

  lemma PopKeepsLedger<D>(s: State<D>, a: Action<D>, r: nat)
    requires Shaped(s) && Enabled(s, a) && a.Pop? && a.reader == r && ReaderLedger(s, r)
    ensures Shaped(Apply(s, a)) && ReaderLedger(Apply(s, a), r)
  {
    hide IsSubsequence, Waiting;
    ShapedKept(s, a);
    WaitingPop(s.data, s.readers[r].ring, s.readers[r].popped);
  }

  /** Any other step leaves reader r's ring and histories, and what it has been offered, alone. */
  lemma Untouched<D>(s: State<D>, a: Action<D>, r: nat)
    requires Shaped(s) && Enabled(s, a) && r < |s.readers| && !a.Fill? && !(a.Pop? && a.reader == r)
    requires !((a.TryPush? || a.UndoRef?) && s.pc.at == r)
    ensures var t, x := Apply(s, a), s.readers[r];
            && r < |t.readers| && t.data == s.data && s.offered <= t.offered && Attempts(t, r) == Attempts(s, r)
            && t.readers[r].ring == x.ring && t.readers[r].popped == x.popped
            && t.readers[r].delivered == x.delivered && t.readers[r].dropped == x.dropped
  {
    hide Attempts, ReaderShaped;
    SameAttempts(s, a, r);
  }

  lemma SameAttempts<D>(s: State<D>, a: Action<D>, r: nat)
    requires Shaped(s) && Enabled(s, a) && r < |s.readers| && !((a.TryPush? || a.UndoRef?) && s.pc.at == r)
    ensures Attempts(Apply(s, a), r) == Attempts(s, r) && s.offered <= Apply(s, a).offered
  {
    hide ReaderShaped;
  }

  /** What reader r has been offered only grows, and does not grow in other readers' steps. */
  lemma OfferedPrefix<D>(s: State<D>, t: State<D>, r: nat)
    requires 0 <= Attempts(s, r) && Attempts(t, r) == Attempts(s, r)
    requires s.offered <= t.offered
    ensures Attempts(s, r) <= |s.offered| && s.offered[..Attempts(s, r)] == t.offered[..Attempts(t, r)]
  {
  }

  /** Serving reader r: the block it is offered is the last one offered, with the samples filled in. */
  lemma AttemptAccounted<D>(s: State<D>, a: Action<D>, r: nat)
    requires Inv(s) && Enabled(s, a) && r < |s.readers|
    requires (a.TryPush? || a.UndoRef?) && s.pc.at == r
    ensures Shaped(Apply(s, a)) && ReaderLedger(Apply(s, a), r)
  {
    hide Conserved, RoomAhead, IsSubsequence, Waiting;
    ShapedKept(s, a);
    var t := Apply(s, a);
    var x := s.readers[r];
    assert ReaderLedger(s, r);
    if t.pc.Push? {
      OneMoreOffered(x.delivered, s.offered);
      if a.TryPush? {
        WaitingPush(s.data, x.ring, s.pc.block, x.popped);
      }
    }
  }

  lemma OneMoreOffered<D>(delivered: seq<D>, offered: seq<D>)
    requires |offered| > 0 && IsSubsequence(delivered, offered[..|offered| - 1])
    ensures offered[..|offered|] == offered
    ensures IsSubsequence(delivered, offered) && IsSubsequence(delivered + [offered[|offered| - 1]], offered)
  {
    var n := |offered| - 1;
    assert offered == offered[..n] + [offered[n]];
    SubsequenceExtends(delivered, offered[..n], offered[n]);
  }

  lemma WaitingPush<D>(data: seq<D>, ring: seq<nat>, b: nat, popped: seq<D>)
    requires b < |data| && forall i :: 0 <= i < |ring| ==> ring[i] < |data|
    ensures popped + Waiting(data, ring + [b]) == (popped + Waiting(data, ring)) + [data[b]]
  {
    assert Waiting(data, ring + [b]) == Waiting(data, ring) + [data[b]];
  }

  lemma WaitingPop<D>(data: seq<D>, ring: seq<nat>, popped: seq<D>)
    requires ring != [] && forall i :: 0 <= i < |ring| ==> ring[i] < |data|
    ensures popped + Waiting(data, ring) == (popped + [data[ring[0]]]) + Waiting(data, ring[1..])
  {
    assert Waiting(data, ring) == [data[ring[0]]] + Waiting(data, ring[1..]);
  }

  lemma OfferingKept<D>(s: State<D>, a: Action<D>)
    requires Shaped(s) && Offering(s) && Enabled(s, a)
    ensures Shaped(Apply(s, a)) && Offering(Apply(s, a))
  {
    ShapedKept(s, a);
  }

  /** Every step of every interleaving keeps the invariant. */
  lemma InvKept<D>(s: State<D>, a: Action<D>)
    requires Inv(s) && Enabled(s, a)
    ensures Inv(Apply(s, a)) && |Apply(s, a).readers| == |s.readers|
    ensures Apply(s, a).blocking == s.blocking
  {
    ShapedKept(s, a);
    OfferingKept(s, a);
    ConservedKept(s, a);
    ExclusiveKept(s, a);
    RoomKept(s, a);
    hide Apply, Conserved, Exclusive, RoomAhead, ReaderLedger;
    forall r | 0 <= r < |s.readers| ensures ReaderLedger(Apply(s, a), r) {
      LedgerKept(s, a, r);
    }
  }

  /** A run: a state reached by a sequence of enabled actions, in any interleaving. */
  ghost predicate Run<D>(s: State<D>, actions: seq<Action<D>>, t: State<D>)
    decreases |actions|
  {
    if |actions| == 0 then s == t
    else Shaped(s) && Enabled(s, actions[0]) && Run(Apply(s, actions[0]), actions[1..], t)
  }

  lemma {:induction false} InvAlongRuns<D>(s: State<D>, actions: seq<Action<D>>, t: State<D>)
    requires Inv(s) && Run(s, actions, t)
    ensures Inv(t) && |t.readers| == |s.readers| && t.blocking == s.blocking
    decreases |actions|
  {
    hide Inv, Apply;
    if |actions| > 0 {
      InvKept(s, actions[0]);
      InvAlongRuns(Apply(s, actions[0]), actions[1..], t);
    }
  }

  // -- main results ---------------------------------------------------------------------------------

  /** Conservation: along every run from a fresh dispatcher, each refcount is exactly the number of
      references held by the producer, by ring slots and by views.  So a block that reads as free is
      nowhere, and a block the producer owns is in no ring and in no view. */
  lemma RefcountsConserved<D>(n: nat, blank: D, blocking: bool, actions: seq<Action<D>>, t: State<D>, b: nat)
    requires Run(Fresh(n, blank, blocking), actions, t) && b < BLOCKS
    ensures |t.refs| == BLOCKS && t.refs[b] == ProducerRefs(t.pc, b) + ReaderRefs(t.readers, b)
    ensures t.refs[b] == 0 || (t.pc.Owned? && t.pc.block == b) ==>
              forall r :: 0 <= r < |t.readers| ==> b !in t.readers[r].ring && t.readers[r].held != Some(b)
  {
    InitiallyInv(n, blank, blocking);
    InvAlongRuns(Fresh(n, blank, blocking), actions, t);
    if t.refs[b] == 0 || (t.pc.Owned? && t.pc.block == b) {
      Unreferenced(t.readers, b);
    }
  }

  /** A block in some reader's view keeps its samples in every step, until it is released. */
  lemma HeldIsStable<D>(s: State<D>, a: Action<D>, r: nat)
    requires Inv(s) && Enabled(s, a) && r < |s.readers| && s.readers[r].held.Some?
    ensures var b := s.readers[r].held.value;
            Apply(s, a).data[b] == s.data[b] && (a != Release(r) ==> Apply(s, a).readers[r].held == Some(b))
  {
    if a.Fill? {
      OwnedIsUnseen(s, r);
    }
  }

  /** Backpressure loses nothing: on every run, each reader has popped a beginning of the offered
      sequence, exactly and in order, and has been delivered all of it but the block still on its way. */
  lemma BackpressureIsLossless<D>(n: nat, blank: D, actions: seq<Action<D>>, t: State<D>, r: nat)
    requires Run(Fresh(n, blank, true), actions, t) && r < n
    ensures |t.readers| == n && t.readers[r].dropped == 0
    ensures t.readers[r].popped <= t.readers[r].delivered <= t.offered
    ensures |t.offered| - |t.readers[r].delivered| <= 1
    ensures t.pc.Idle? ==> t.readers[r].delivered == t.offered
    ensures t.pc.Idle? && t.readers[r].ring == [] ==> t.readers[r].popped == t.offered
  {
    InitiallyInv(n, blank, true);
    InvAlongRuns(Fresh(n, blank, true), actions, t);
    DroplessIsPrefix(t, r);
    assert ReaderLedger(t, r);
    assert t.readers[r].ring == [] ==> t.readers[r].popped + Waiting(t.data, []) == t.readers[r].popped;
  }

  lemma DroplessIsPrefix<D>(t: State<D>, r: nat)
    requires Inv(t) && r < |t.readers| && t.readers[r].dropped == 0
    ensures t.readers[r].popped <= t.readers[r].delivered
    ensures t.readers[r].delivered == t.offered[..Attempts(t, r)]
  {
    var x := t.readers[r];
    assert ReaderLedger(t, r);
    FullSubsequence(x.delivered, t.offered[..Attempts(t, r)]);
  }

  lemma {:induction false} FullSubsequence<D>(a: seq<D>, b: seq<D>)
    requires IsSubsequence(a, b) && |a| == |b|
    ensures a == b
  {
    if |b| > 0 {
      ShorterSubsequence(a, b[..|b| - 1]);
      FullSubsequence(a[..|a| - 1], b[..|b| - 1]);
      assert a == a[..|a| - 1] + [a[|a| - 1]] && b == b[..|b| - 1] + [b[|b| - 1]];
    }
  }

  lemma {:induction false} ShorterSubsequence<D>(a: seq<D>, b: seq<D>)
    ensures IsSubsequence(a, b) ==> |a| <= |b|
    decreases |b|
  {
    if |a| > 0 && |b| > 0 {
      ShorterSubsequence(a, b[..|b| - 1]);
      ShorterSubsequence(a[..|a| - 1], b[..|b| - 1]);
    }
  }

  /** Live mode, per reader: offered = popped + queued + dropped (not counting the block on its way to
      this reader), and what is popped comes in the order offered, a part of it left out. */
  lemma LiveAccounting<D>(n: nat, blank: D, actions: seq<Action<D>>, t: State<D>, r: nat)
    requires Run(Fresh(n, blank, false), actions, t) && r < n
    ensures |t.readers| == n
    ensures var x := t.readers[r];
            && |x.popped| + |x.ring| + x.dropped == Attempts(t, r)
            && |t.offered| - 1 <= Attempts(t, r) <= |t.offered|
            && IsSubsequence(x.delivered, t.offered[..Attempts(t, r)])
            && x.popped <= x.delivered
  {
    InitiallyInv(n, blank, false);
    InvAlongRuns(Fresh(n, blank, false), actions, t);
    assert ReaderLedger(t, r);
  }

  // -- drops ----------------------------------------------------------------------------------------

  /** How many of the run's attempts to push to reader r found its ring with all eight places taken (or, with
      `full` false, with a place left). */
  ghost function Attempted<D>(s: State<D>, actions: seq<Action<D>>, t: State<D>, r: nat, full: bool): (n: nat)
    requires Run(s, actions, t) && r < |s.readers|
    decreases |actions|
  {
    if |actions| == 0 then 0
    else
      ReadersStay(s, actions[0]);
      var here := actions[0].TryPush? && s.pc.at == r && (|s.readers[r].ring| == 8) == full;
      (if here then 1 else 0) + Attempted(Apply(s, actions[0]), actions[1..], t, r, full)
  }

  lemma ReadersStay<D>(s: State<D>, a: Action<D>)
    requires Shaped(s) && Enabled(s, a)
    ensures |Apply(s, a).readers| == |s.readers|
  {
    ShapedKept(s, a);
  }

  /** Drops of reader r: those counted, and one that is about to be. */
  function Drops<D>(s: State<D>, r: nat): (n: nat)
    requires r < |s.readers|
  {
    s.readers[r].dropped + if s.pc.Undo? && s.pc.at == r then 1 else 0
  }

  lemma DropStep<D>(s: State<D>, a: Action<D>, r: nat)
    requires Shaped(s) && Enabled(s, a) && r < |s.readers|
    ensures var t := Apply(s, a);
            var pushes := a.TryPush? && s.pc.at == r;
            && |t.readers| == |s.readers|
            && Drops(t, r) == Drops(s, r) + (if pushes && |s.readers[r].ring| == 8 then 1 else 0)
            && |t.readers[r].delivered|
               == |s.readers[r].delivered| + (if pushes && |s.readers[r].ring| != 8 then 1 else 0)
  {
    hide ReaderShaped;
  }

  /** On every interleaving, in either mode, a reader's drops are exactly the attempts made while its ring held
      eight blocks, and what is delivered to it exactly the others. */
  lemma {:induction false} DroppedExactlyWhenFull<D>(s: State<D>, actions: seq<Action<D>>, t: State<D>, r: nat)
    requires Run(s, actions, t) && r < |s.readers|
    ensures |t.readers| == |s.readers|
    ensures Drops(t, r) == Drops(s, r) + Attempted(s, actions, t, r, true)
    ensures |t.readers[r].delivered| == |s.readers[r].delivered| + Attempted(s, actions, t, r, false)
    decreases |actions|
  {
    hide Apply, Drops;
    if |actions| > 0 {
      DropStep(s, actions[0], r);
      DroppedExactlyWhenFull(Apply(s, actions[0]), actions[1..], t, r);
    }
  }

  /** A reader that has room at every attempt loses nothing, live or not: all that was offered so far, but for the
      block on its way, was delivered to it in order. */
  lemma RoomMeansDelivery<D>(n: nat, blank: D, blocking: bool, actions: seq<Action<D>>, t: State<D>, r: nat)
    requires Run(Fresh(n, blank, blocking), actions, t) && r < n
    ensures |t.readers| == n
    ensures t.readers[r].dropped > 0 ==> Attempted(Fresh(n, blank, blocking), actions, t, r, true) > 0
    ensures Attempted(Fresh(n, blank, blocking), actions, t, r, true) == 0 ==>
              && t.readers[r].dropped == 0
              && t.readers[r].delivered <= t.offered && |t.offered| - |t.readers[r].delivered| <= 1
              && (t.pc.Idle? ==> t.readers[r].delivered == t.offered)
  {
    var s := Fresh(n, blank, blocking);
    InitiallyInv(n, blank, blocking);
    InvAlongRuns(s, actions, t);
    DroppedExactlyWhenFull(s, actions, t, r);
    if Attempted(s, actions, t, r, true) == 0 {
      DroplessIsPrefix(t, r);
    }
  }

  // -- the search for a free block --------------------------------------------------------------------

  /** Block b is unreferenced in every state of the run. */
  ghost predicate StaysFree<D>(s: State<D>, actions: seq<Action<D>>, b: nat)
    decreases |actions|
  {
    && b < |s.refs| && s.refs[b] == 0
    && (|actions| > 0 && Shaped(s) && Enabled(s, actions[0]) ==> StaysFree(Apply(s, actions[0]), actions[1..], b))
  }

  /** How far block b is from where the search starts. */
  function Distance(next: nat, b: nat): (k: nat)
    requires next < 64 && b < 64
    ensures k < 64 && (next + k) % 64 == b
  {
    if b >= next then b - next else b + 64 - next
  }

  /** The search has not yet passed b. */
  ghost predicate Ahead<D>(s: State<D>, b: nat)
    requires s.next < 64 && b < 64
  {
    s.pc.Scan? ==> s.pc.tried <= Distance(s.next, b)
  }

  lemma AheadKept<D>(s: State<D>, a: Action<D>, b: nat)
    requires Shaped(s) && Enabled(s, a) && b < 64 && s.refs[b] == 0 && Ahead(s, b)
    ensures Shaped(Apply(s, a)) && Ahead(Apply(s, a), b) && !a.GiveUp?
  {
    ShapedKept(s, a);
    hide ReaderShaped;
  }

  /** The search never gives up while there is a block that stays free. */
  lemma {:induction false} FreeIsFound<D>(s: State<D>, actions: seq<Action<D>>, t: State<D>, b: nat, i: nat)
    requires Run(s, actions, t) && StaysFree(s, actions, b) && Shaped(s) && b < 64 && Ahead(s, b)
    requires i < |actions|
    ensures !actions[i].GiveUp?
    decreases |actions|
  {
    hide Apply, Ahead;
    AheadKept(s, actions[0], b);
    if i > 0 {
      FreeIsFound(Apply(s, actions[0]), actions[1..], t, b, i - 1);
    }
  }

  // -- the producer left alone ------------------------------------------------------------------------

  /** What one offer does to a reader. */
  function Served<D>(x: Reader<D>, b: nat, v: D): (y: Reader<D>) {
    if |x.ring| == 8 then x.(dropped := x.dropped + 1)
    else x.(ring := x.ring + [b], delivered := x.delivered + [v])
  }

  /** ... and to all of them from reader k on. */
  function AllServed<D>(readers: seq<Reader<D>>, k: nat, b: nat, v: D): (q: seq<Reader<D>>)
    ensures |q| == |readers|
    ensures forall r :: 0 <= r < |q| ==> q[r] == if r < k then readers[r] else Served(readers[r], b, v)
  {
    seq(|readers|, r requires 0 <= r < |readers| => if r < k then readers[r] else Served(readers[r], b, v))
  }

  /** How many of the readers from k on have room. */
  function Roomy<D>(readers: seq<Reader<D>>, k: nat): (n: nat)
    decreases |readers| - k
  {
    if k >= |readers| then 0 else (if |readers[k].ring| == 8 then 0 else 1) + Roomy(readers, k + 1)
  }

  predicate OffersOnly<D>(actions: seq<Action<D>>) {
    forall i :: 0 <= i < |actions| ==>
      var a := actions[i];
      a.Offer? || a.CheckOne? || a.TakeRef? || a.TryPush? || a.UndoRef? || a.Finish?
  }

  lemma {:induction false} RunsJoin<D>(s: State<D>, a: seq<Action<D>>, t: State<D>, b: seq<Action<D>>, u: State<D>)
    requires Run(s, a, t) && Run(t, b, u)
    ensures Run(s, a + b, u)
    decreases |a|
  {
    hide Apply, Shaped, Enabled;
    if |a| == 0 {
      assert a + b == b;
    } else {
      assert (a + b)[1..] == a[1..] + b;
      RunsJoin(Apply(s, a[0]), a[1..], t, b, u);
    }
  }

  lemma OneStep<D>(s: State<D>, a: Action<D>)
    requires Shaped(s) && Enabled(s, a)
    ensures Run(s, [a], Apply(s, a))
  {
    hide Apply;
    assert Run(Apply(s, a), [a][1..], Apply(s, a));
  }

  /** One reader is served in two steps, or three when its ring is full. */
  lemma ServeOne<D>(s: State<D>) returns (actions: seq<Action<D>>, t: State<D>)
    requires Shaped(s) && s.pc.Push? && s.pc.at < |s.readers|
    ensures Run(s, actions, t) && OffersOnly(actions) && Shaped(t)
    ensures var k, b := s.pc.at, s.pc.block;
            var full := |s.readers[k].ring| == 8;
            && t == s.(readers := s.readers[k := Served(s.readers[k], b, s.data[b])], pc := Push(b, k + 1),
                       refs := if full then s.refs else s.refs[b := s.refs[b] + 1])
  {
    hide ReaderShaped;
    var u := Apply(s, TakeRef);
    ShapedKept(s, TakeRef);
    OneStep(s, TakeRef);
    var v := Apply(u, TryPush);
    ShapedKept(u, TryPush);
    OneStep(u, TryPush);
    RunsJoin(s, [TakeRef], u, [TryPush], v);
    actions, t := [TakeRef] + [TryPush], v;
    if |s.readers[s.pc.at].ring| == 8 {
      t := Apply(v, UndoRef);
      ShapedKept(v, UndoRef);
      OneStep(v, UndoRef);
      RunsJoin(s, actions, v, [UndoRef], t);
      actions := actions + [UndoRef];
      assert t.refs == s.refs;
    }
  }

  lemma {:induction false} ServeAll<D>(s: State<D>) returns (actions: seq<Action<D>>, t: State<D>)
    requires Shaped(s) && s.pc.Push?
    ensures Run(s, actions, t) && OffersOnly(actions) && Shaped(t)
    ensures var k, b := s.pc.at, s.pc.block;
            t == s.(readers := AllServed(s.readers, k, b, s.data[b]), pc := Push(b, |s.readers|),
                    refs := s.refs[b := s.refs[b] + Roomy(s.readers, k)])
    decreases |s.readers| - s.pc.at
  {
    hide Apply, Enabled, ReaderShaped, Served;
    if s.pc.at == |s.readers| {
      actions, t := [], s;
      assert AllServed(s.readers, s.pc.at, s.pc.block, s.data[s.pc.block]) == s.readers;
      assert s.refs[s.pc.block := s.refs[s.pc.block]] == s.refs;
    } else {
      var first, u := ServeOne(s);
      var rest: seq<Action<D>>;
      rest, t := ServeAll(u);
      RunsJoin(s, first, u, rest, t);
      actions := first + rest;
      SameRoom(s.readers, u.readers, s.pc.at + 1);
      assert t.readers == AllServed(s.readers, s.pc.at, s.pc.block, s.data[s.pc.block]);
    }
  }

  lemma {:induction false} SameRoom<D>(a: seq<Reader<D>>, b: seq<Reader<D>>, k: nat)
    requires |a| == |b| && forall r :: k <= r < |a| ==> a[r] == b[r]
    ensures Roomy(a, k) == Roomy(b, k)
    decreases |a| - k
  {
    if k < |a| {
      SameRoom(a, b, k + 1);
    }
  }

  /** Under backpressure, when every ring has room, the check passes every reader. */
  lemma {:induction false} CheckAll<D>(s: State<D>) returns (actions: seq<Action<D>>, t: State<D>)
    requires Shaped(s) && s.pc.Check?
    requires forall r :: 0 <= r < |s.readers| ==> |s.readers[r].ring| < 8
    ensures Run(s, actions, t) && OffersOnly(actions) && Shaped(t)
    ensures t == s.(pc := Push(s.pc.block, 0), offered := s.offered + [s.data[s.pc.block]])
    decreases |s.readers| - s.pc.at
  {
    hide ReaderShaped;
    var u := Apply(s, CheckOne);
    ShapedKept(s, CheckOne);
    OneStep(s, CheckOne);
    if s.pc.at == |s.readers| {
      actions, t := [CheckOne], u;
    } else {
      var rest: seq<Action<D>>;
      rest, t := CheckAll(u);
      RunsJoin(s, [CheckOne], u, rest, t);
      actions := [CheckOne] + rest;
    }
  }

  lemma Offered<D>(s: State<D>) returns (actions: seq<Action<D>>, t: State<D>)
    requires Shaped(s) && s.pc.Owned?
    requires s.blocking ==> forall r :: 0 <= r < |s.readers| ==> |s.readers[r].ring| < 8
    ensures Run(s, actions, t) && OffersOnly(actions) && Shaped(t)
    ensures t == s.(pc := Push(s.pc.block, 0), offered := s.offered + [s.data[s.pc.block]])
  {
    hide ReaderShaped;
    t := Apply(s, Offer);
    ShapedKept(s, Offer);
    OneStep(s, Offer);
    actions := [Offer];
    if s.blocking {
      var checks, v := CheckAll(t);
      RunsJoin(s, actions, t, checks, v);
      actions, t := actions + checks, v;
    }
  }

  /** Offering a filled block with nobody interfering: every reader with room gets it behind what it has, every
      full one counts a drop, nothing else changes, and the block is left with one reference for each
      reader that got it.  Under backpressure this holds when all have room. */
  lemma OfferAlone<D>(s: State<D>) returns (actions: seq<Action<D>>, t: State<D>)
    requires Shaped(s) && s.pc.Owned? && s.refs[s.pc.block] == 1
    requires s.blocking ==> forall r :: 0 <= r < |s.readers| ==> |s.readers[r].ring| < 8
    ensures Run(s, actions, t) && OffersOnly(actions)
    ensures var b := s.pc.block;
            t == s.(readers := AllServed(s.readers, 0, b, s.data[b]), offered := s.offered + [s.data[b]],
                    refs := s.refs[b := Roomy(s.readers, 0)], pc := Idle)
  {
    hide ReaderShaped, Run, Served, Roomy, AllServed;
    var u, w: State<D>;
    var serves: seq<Action<D>>;
    actions, u := Offered(s);
    serves, w := ServeAll(u);
    RunsJoin(s, actions, u, serves, w);
    t := Apply(w, Finish);
    OneStep(w, Finish);
    RunsJoin(s, actions + serves, w, [Finish], t);
    actions := actions + serves + [Finish];
  }

  /** Samples filled into a block and offered are what readers with room are delivered. */
  lemma SendAlone<D>(s: State<D>, v: D) returns (actions: seq<Action<D>>, t: State<D>)
    requires Shaped(s) && s.pc.Owned? && s.refs[s.pc.block] == 1
    requires s.blocking ==> forall r :: 0 <= r < |s.readers| ==> |s.readers[r].ring| < 8
    ensures Run(s, [Fill(v)] + actions, t) && OffersOnly(actions)
    ensures t == s.(data := s.data[s.pc.block := v], readers := AllServed(s.readers, 0, s.pc.block, v),
                    offered := s.offered + [v], refs := s.refs[s.pc.block := Roomy(s.readers, 0)], pc := Idle)
  {
    hide ReaderShaped, Served, Roomy, AllServed;
    var u := Apply(s, Fill(v));
    ShapedKept(s, Fill(v));
    OneStep(s, Fill(v));
    hide Run;
    actions, t := OfferAlone(u);
    RunsJoin(s, [Fill(v)], u, actions, t);
  }

  /** The free block the search meets first. */
  ghost predicate FirstFree<D>(s: State<D>, b: nat)
    requires Shaped(s)
  {
    && b < 64 && s.refs[b] == 0
    && forall c: nat :: c < 64 && s.refs[c] == 0 ==> Distance(s.next, b) <= Distance(s.next, c)
  }

  lemma {:induction false} ScanAlone<D>(s: State<D>) returns (actions: seq<Action<D>>, t: State<D>)
    requires Shaped(s) && s.pc.Scan? && s.pc.tried <= 64
    requires forall c: nat :: c < 64 && s.refs[c] == 0 ==> s.pc.tried <= Distance(s.next, c)
    ensures Run(s, actions, t)
    ensures if forall c: nat :: c < 64 ==> s.refs[c] != 0 then t == s.(pc := Idle)
            else t.pc.Owned? && FirstFree(s, t.pc.block)
                 && t == s.(pc := t.pc, refs := s.refs[t.pc.block := 1], next := (t.pc.block + 1) % 64)
    decreases 64 - s.pc.tried
  {
    hide ReaderShaped;
    if s.pc.tried == 64 {
      t := Apply(s, GiveUp);
      OneStep(s, GiveUp);
      actions := [GiveUp];
    } else {
      var u := Apply(s, ScanOne);
      var b := (s.next + s.pc.tried) % 64;
      assert Distance(s.next, b) == s.pc.tried;
      ShapedKept(s, ScanOne);
      OneStep(s, ScanOne);
      if u.pc.Found? {
        t := Apply(u, Claim);
        OneStep(u, Claim);
        RunsJoin(s, [ScanOne], u, [Claim], t);
        actions := [ScanOne] + [Claim];
      } else {
        FurtherOn(s, b);
        var rest: seq<Action<D>>;
        rest, t := ScanAlone(u);
        RunsJoin(s, [ScanOne], u, rest, t);
        actions := [ScanOne] + rest;
      }
    }
  }

  lemma FurtherOn<D>(s: State<D>, b: nat)
    requires Shaped(s) && s.pc.Scan? && b < 64 && s.refs[b] != 0 && Distance(s.next, b) == s.pc.tried
    requires forall c: nat :: c < 64 && s.refs[c] == 0 ==> s.pc.tried <= Distance(s.next, c)
    ensures forall c: nat :: c < 64 && s.refs[c] == 0 ==> s.pc.tried + 1 <= Distance(s.next, c)
  {
    forall c: nat | c < 64 && s.refs[c] == 0 ensures s.pc.tried + 1 <= Distance(s.next, c) {
      assert c != b;
    }
  }

  /** Acquiring with nobody interfering: the first free block at or after the index, going round once, is claimed
      with one reference and the index moves behind it; without a free block nothing changes. */
  lemma AcquireAlone<D>(s: State<D>) returns (actions: seq<Action<D>>, t: State<D>)
    requires Shaped(s) && s.pc.Idle?
    ensures Run(s, actions, t)
    ensures if forall c: nat :: c < 64 ==> s.refs[c] != 0 then t == s
            else t.pc.Owned? && FirstFree(s, t.pc.block)
                 && t == s.(pc := t.pc, refs := s.refs[t.pc.block := 1], next := (t.pc.block + 1) % 64)
  {
    hide ReaderShaped;
    var u := Apply(s, Acquire);
    ShapedKept(s, Acquire);
    OneStep(s, Acquire);
    var rest: seq<Action<D>>;
    rest, t := ScanAlone(u);
    RunsJoin(s, [Acquire], u, rest, t);
    actions := [Acquire] + rest;
  }

  // -- progress ---------------------------------------------------------------------------------------

  /** Reader r waits on nothing and holds nothing. */
  predicate Empty<D>(x: Reader<D>) {
    x.ring == [] && x.held.None?
  }

  predicate ReadsOnly<D>(actions: seq<Action<D>>) {
    forall i :: 0 <= i < |actions| ==> actions[i].Release? || actions[i].Pop?
  }

  /** A reader can always work off its ring. */
  lemma {:induction false} ReaderWorksOff<D>(s: State<D>, r: nat) returns (actions: seq<Action<D>>, t: State<D>)
    requires Inv(s) && r < |s.readers|
    ensures Run(s, actions, t) && ReadsOnly(actions) && Inv(t)
    ensures t.pc == s.pc && t.blocking == s.blocking && |t.readers| == |s.readers| && Empty(t.readers[r])
    ensures forall j :: 0 <= j < |s.readers| && j != r ==> t.readers[j] == s.readers[j]
    decreases |s.readers[r].ring|, if s.readers[r].held.Some? then 1 else 0
  {
    if Empty(s.readers[r]) {
      actions, t := [], s;
    } else {
      var a := if s.readers[r].held.Some? then Release(r) else Pop(r);
      ReaderMoves(s, r, a);
      InvKept(s, a);
      hide Inv, Apply;
      var rest: seq<Action<D>>;
      rest, t := ReaderWorksOff(Apply(s, a), r);
      InvShaped(s);
      OneStep(s, a);
      RunsJoin(s, [a], Apply(s, a), rest, t);
      actions := [a] + rest;
    }
  }

  lemma InvShaped<D>(s: State<D>)
    requires Inv(s)
    ensures Shaped(s)
  {
  }

  lemma ReaderMoves<D>(s: State<D>, r: nat, a: Action<D>)
    requires Inv(s) && r < |s.readers| && !Empty(s.readers[r])
    requires a == if s.readers[r].held.Some? then Release(r) else Pop(r)
    ensures Enabled(s, a)
    ensures var t := Apply(s, a);
            && t.pc == s.pc && t.blocking == s.blocking && |t.readers| == |s.readers|
            && (forall j :: 0 <= j < |s.readers| && j != r ==> t.readers[j] == s.readers[j])
            && (a.Release? ==> t.readers[r].ring == s.readers[r].ring && t.readers[r].held.None?)
            && (a.Pop? ==> |t.readers[r].ring| < |s.readers[r].ring|)
  {
    hide ReaderLedger, Conserved, Exclusive, RoomAhead, Offering;
  }

  lemma {:induction false} AllWorkOff<D>(s: State<D>, n: nat) returns (actions: seq<Action<D>>, t: State<D>)
    requires Inv(s) && n <= |s.readers|
    ensures Run(s, actions, t) && ReadsOnly(actions) && Inv(t)
    ensures t.pc == s.pc && t.blocking == s.blocking && |t.readers| == |s.readers|
    ensures forall j :: 0 <= j < n ==> Empty(t.readers[j])
  {
    hide Inv;
    if n == 0 {
      actions, t := [], s;
    } else {
      var first, u := AllWorkOff(s, n - 1);
      var rest: seq<Action<D>>;
      rest, t := ReaderWorksOff(u, n - 1);
      RunsJoin(s, first, u, rest, t);
      actions := first + rest;
    }
  }

  /** Producer steps other than filling a block or giving a push up. */
  predicate ProducesOnly<D>(actions: seq<Action<D>>) {
    forall i :: 0 <= i < |actions| ==> IsProducerAction(actions[i]) && !actions[i].Abandon? && !actions[i].Fill?
  }

  /** How far the producer is from having served everybody, when every ring has room. */
  function Remaining(pc: Pc, n: nat): (k: nat)
  {
    var ahead := if pc.Check? || pc.Push? || pc.Taken? || pc.Undo? then (if pc.at <= n then n - pc.at else 0) else 0;
    match pc
    case Idle => 0
    case Push(_, _) => 2 + 2 * ahead
    case Taken(_, _) => 1 + 2 * ahead
    case Undo(_, _) => 1 + 2 * ahead
    case Check(_, _) => 2 * n + 4 + ahead
    case Owned(_) => 3 * n + 5
    case Found(_) => 3 * n + 6
    case Scan(k) => 3 * n + 7 + if k <= BLOCKS then BLOCKS - k else 0
  }

  /** What the producer does next. */
  function NextStep<D>(s: State<D>): (a: Action<D>)
    requires !s.pc.Idle?
  {
    match s.pc
    case Scan(k) => if k < BLOCKS then ScanOne else GiveUp
    case Found(_) => Claim
    case Owned(_) => Offer
    case Check(_, _) => CheckOne
    case Push(_, k) => if k < |s.readers| then TakeRef else Finish
    case Taken(_, _) => TryPush
    case Undo(_, _) => UndoRef
  }

  /** Every ring has room while the producer has not begun to push. */
  predicate Room<D>(s: State<D>) {
    s.pc.Push? || s.pc.Taken? || s.pc.Undo? || forall r :: 0 <= r < |s.readers| ==> |s.readers[r].ring| < 8
  }

  lemma ProducerMoves<D>(s: State<D>)
    requires Inv(s) && s.blocking && Room(s) && !s.pc.Idle?
    ensures Enabled(s, NextStep(s)) && IsProducerAction(NextStep(s))
    ensures var t := Apply(s, NextStep(s));
            && |t.readers| == |s.readers| && (t.pc.Idle? || Room(t))
            && Remaining(t.pc, |t.readers|) < Remaining(s.pc, |s.readers|)
  {
    hide ReaderLedger, Conserved, Exclusive, Offering, ReaderShaped;
  }

  /** A producer under backpressure can always finish what it is at, once the rings have room. */
  lemma {:induction false} ProducerFinishes<D>(s: State<D>) returns (actions: seq<Action<D>>, t: State<D>)
    requires Inv(s) && s.blocking && (s.pc.Idle? || Room(s))
    ensures Run(s, actions, t) && ProducesOnly(actions) && Inv(t) && (s.pc.Idle? ==> actions == [])
    ensures t.pc.Idle? && t.blocking && |t.readers| == |s.readers|
    decreases Remaining(s.pc, |s.readers|)
  {
    if s.pc.Idle? {
      actions, t := [], s;
    } else {
      var a := NextStep(s);
      ProducerMoves(s);
      InvKept(s, a);
      InvShaped(s);
      OneStep(s, a);
      hide Inv, Apply, Remaining, Room, NextStep;
      var rest: seq<Action<D>>;
      rest, t := ProducerFinishes(Apply(s, a));
      RunsJoin(s, [a], Apply(s, a), rest, t);
      actions := [a] + rest;
    }
  }
}
