/** The BLE connection table: access addresses earn a slot by repeated sightings, slots are evicted
    when the table is full, and each slot learns its CRCInit. */
module BleRegistry {
  import opened Bits
  import opened BleLink
  import BleCrc

  const CONNS_MAX: nat := 512
  const CONNS_INIT_CAP: nat := 16
  const PENDING_CAP: nat := 1024
  const PROMOTE_THRESHOLD: nat := 3
  const UINT32: nat := 0x1_0000_0000

  datatype Connection = Connection(link: Link, id: nat)

  /** A first-sight tally entry. */
  datatype Pending = Pending(aa: nat, count: nat, stamp: nat)

  predicate AddressesDistinct(conns: seq<Connection>) {
    forall i, j :: 0 <= i < j < |conns| ==> conns[i].link.accessAddress != conns[j].link.accessAddress
  }

  predicate IdsBelow(conns: seq<Connection>, next: nat) {
    && (forall i :: 0 <= i < |conns| ==> 0 < conns[i].id < next)
    && (forall i, j :: 0 <= i < j < |conns| ==> conns[i].id != conns[j].id)
  }

  predicate PendingDistinct(pending: seq<Pending>) {
    forall i, j :: 0 <= i < j < |pending| ==> pending[i].aa != pending[j].aa
  }

  predicate HasAddress(conns: seq<Connection>, aa: nat) {
    exists i :: 0 <= i < |conns| && conns[i].link.accessAddress == aa
  }

  predicate IsPending(pending: seq<Pending>, aa: nat) {
    exists i :: 0 <= i < |pending| && pending[i].aa == aa
  }

  /** The tally without its array order, which is not meaningful. */
  function Entries(pending: seq<Pending>): (t: set<Pending>) {
    set e | e in pending
  }

  /** Eviction order among unconfirmed links: no candidates first, then fewer packets (compared as
      32-bit numbers), then least recently used. */
  predicate EvictBefore(a: Link, b: Link) {
    var ca, cb := |a.candidates| > 0, |b.candidates| > 0;
    var pa, pb := a.packetsSeen % UINT32, b.packetsSeen % UINT32;
    if ca != cb then !ca else if pa != pb then pa < pb else a.lastUsedSeq < b.lastUsedSeq
  }

  predicate AllConfirmed(conns: seq<Connection>) {
    forall i :: 0 <= i < |conns| ==> conns[i].link.state == Confirmed
  }

  /** v is the slot to reuse: the first minimum among the unconfirmed links; only when every link is
      confirmed, the first of the least recently used ones. */
  predicate IsVictim(conns: seq<Connection>, v: nat) {
    && v < |conns|
    && if AllConfirmed(conns) then FirstLeastRecent(conns, v, |conns|) else FirstEvictable(conns, v, |conns|)
  }

  predicate FirstLeastRecent(conns: seq<Connection>, v: nat, upto: nat)
    requires v < |conns| && upto <= |conns|
  {
    forall i :: 0 <= i < upto ==>
      if i < v then conns[v].link.lastUsedSeq < conns[i].link.lastUsedSeq
      else conns[v].link.lastUsedSeq <= conns[i].link.lastUsedSeq
  }

  predicate FirstEvictable(conns: seq<Connection>, v: nat, upto: nat)
    requires v < |conns| && upto <= |conns|
  {
    && conns[v].link.state != Confirmed
    && forall i :: 0 <= i < upto && conns[i].link.state != Confirmed ==>
         if i < v then EvictBefore(conns[v].link, conns[i].link) else !EvictBefore(conns[i].link, conns[v].link)
  }

  /** The table after giving `aa` a slot. */
  ghost predicate SlotGiven(before: seq<Connection>, after: seq<Connection>, aa: nat, id: nat) {
    if |before| < 512 then after == before + [Connection(FreshLink(aa), id)]
    else exists v: nat :: IsVictim(before, v) && after == before[v := Connection(FreshLink(aa), id)]
  }

  /** One more sighting of an address without a slot, the count-th one retained; a full tally forgets
      its oldest entry to make room. */
  ghost predicate Sighted(before: seq<Pending>, after: seq<Pending>, aa: nat, stamp: nat, count: nat) {
    if IsPending(before, aa) then
      exists e :: e in before && e.aa == aa && count == e.count + 1
                  && Entries(after) == Entries(before) - {e} + {Pending(aa, count, stamp)}
    else
      && count == 1
      && if |before| < 1024 then Entries(after) == Entries(before) + {Pending(aa, 1, stamp)}
         else exists e :: IsOldest(before, e) && Entries(after) == Entries(before) - {e} + {Pending(aa, 1, stamp)}
  }

  ghost predicate IsOldest(pending: seq<Pending>, e: Pending) {
    e in pending && forall other :: other in pending ==> e.stamp <= other.stamp
  }

  /** How often `aa` was sighted since its tally entry was made; 0 when it has none. */
  function Retained(pending: seq<Pending>, aa: nat): (n: nat) {
    if |pending| == 0 then 0
    else if pending[0].aa == aa then pending[0].count
    else Retained(pending[1..], aa)
  }

  lemma {:induction false} RetainedIsCount(pending: seq<Pending>, aa: nat)
    requires PendingDistinct(pending)
    ensures forall e :: e in pending && e.aa == aa ==> Retained(pending, aa) == e.count
    ensures !IsPending(pending, aa) ==> Retained(pending, aa) == 0
  {
    if |pending| > 0 {
      var tail := pending[1..];
      assert forall i :: 0 <= i < |tail| ==> tail[i] == pending[i + 1];
      RetainedIsCount(tail, aa);
      forall e | e in pending && e.aa == aa ensures Retained(pending, aa) == e.count {
        if e != pending[0] {
          assert e in tail;
        }
      }
    }
  }

  /** A sighting adds one to the address's own tally and changes no other, except that the tally of
      the oldest entry is lost when the table is full. */
  lemma SightingCounts(before: seq<Pending>, after: seq<Pending>, aa: nat, stamp: nat, count: nat, other: nat)
    requires PendingDistinct(before) && PendingDistinct(after)
    requires Sighted(before, after, aa, stamp, count)
    ensures Retained(after, aa) == count == Retained(before, aa) + 1
    ensures other != aa ==>
              || Retained(after, other) == Retained(before, other)
              || (Retained(after, other) == 0 && !IsPending(before, aa) && |before| >= PENDING_CAP
                  && exists e :: IsOldest(before, e) && e.aa == other)
  {
    RetainedIsCount(before, aa);
    RetainedIsCount(after, aa);
    RetainedIsCount(before, other);
    RetainedIsCount(after, other);
    assert Pending(aa, count, stamp) in Entries(after);
    assert Pending(aa, count, stamp) in after;
    if other != aa {
      SameOtherEntries(before, after, aa, stamp, count, other);
    }
  }

  lemma SameOtherEntries(before: seq<Pending>, after: seq<Pending>, aa: nat, stamp: nat, count: nat, other: nat)
    requires PendingDistinct(before) && PendingDistinct(after) && other != aa
    requires Sighted(before, after, aa, stamp, count)
    ensures IsPending(after, other) ==> exists e :: e in after && e in before && e.aa == other
    ensures IsPending(before, other) && !IsPending(after, other) ==>
              && !IsPending(before, aa) && |before| >= PENDING_CAP
              && exists e :: IsOldest(before, e) && e.aa == other
  {
    if IsPending(after, other) {
      var i :| 0 <= i < |after| && after[i].aa == other;
      assert after[i] in Entries(after);
      assert after[i] in Entries(before);
    }
    if IsPending(before, other) && !IsPending(after, other) {
      var i :| 0 <= i < |before| && before[i].aa == other;
      assert before[i] in Entries(before) && before[i] !in Entries(after);
      if IsPending(before, aa) {
        assert false;
      }
    }
  }

  class Registry {
    var conns: seq<Connection>
    var connsCap: nat
    var clock: nat
    var pending: seq<Pending>
    var pendingClock: nat
    var nextId: nat
    const table: BleCrc.RecoveryTable

    ghost predicate Valid()
      reads this, table
    {
      && table.Valid()
      && |conns| <= connsCap <= 512 && |pending| <= 1024
      && AddressesDistinct(conns) && PendingDistinct(pending)
      && (forall aa :: !(HasAddress(conns, aa) && IsPending(pending, aa)))
      && (forall i :: 0 <= i < |conns| ==> conns[i].link.Valid())
      && (forall i :: 0 <= i < |pending| ==> 1 <= pending[i].count < 3)
      && nextId > 0 && IdsBelow(conns, nextId)
    }

    constructor ()
      ensures Valid() && fresh(table)
      ensures conns == [] && pending == [] && nextId == 1
    {
      conns, connsCap, clock, pending, pendingClock, nextId := [], 0, 0, [], 0, 1;
      var t := new BleCrc.RecoveryTable();
      table := t;
      new;
      table.TablesInit();
    }

    method ConnFind(aa: nat) returns (i: int)
      ensures i >= 0 ==> i < |conns| && conns[i].link.accessAddress == aa
      ensures i < 0 ==> !HasAddress(conns, aa)
    {
      i := 0;
      while i < |conns|
        invariant 0 <= i <= |conns|
        invariant forall j :: 0 <= j < i ==> conns[j].link.accessAddress != aa
      {
        if conns[i].link.accessAddress == aa {
          return;
        }
        i := i + 1;
      }
      i := -1;
    }

    method VictimIndex() returns (best: nat)
      requires conns != []
      ensures best < |conns| && IsVictim(conns, best)
    {
      hide EvictBefore;
      best := 0;
      var found := false;
      var i := 0;
      while i < |conns|
        invariant i <= |conns| && best < |conns|
        invariant found ==> best < i && FirstEvictable(conns, best, i)
        invariant !found ==> best == 0 && forall j :: 0 <= j < i ==> conns[j].link.state == Confirmed
      {
        if conns[i].link.state != Confirmed {
          if !found || EvictBefore(conns[i].link, conns[best].link) {
            NewBest(conns, best, i, found);
            best, found := i, true;
          }
        }
        i := i + 1;
      }
      if !found {
        i := 1;
        while i < |conns|
          invariant 1 <= i <= |conns| && best < i && FirstLeastRecent(conns, best, i)
        {
          if conns[i].link.lastUsedSeq < conns[best].link.lastUsedSeq {
            best := i;
          }
          i := i + 1;
        }
      }
    }

    /** Give `aa`, which has no slot and is not pending, a slot. */
    method ConnCreate(aa: nat) returns (c: nat)
      requires Valid() && !HasAddress(conns, aa) && !IsPending(pending, aa)
      modifies this`conns, this`connsCap, this`nextId
      ensures Valid() && c < |conns| && conns[c] == Connection(FreshLink(aa), old(nextId))
      ensures SlotGiven(old(conns), conns, aa, old(nextId))
      ensures nextId == old(nextId) + 1
      ensures connsCap == if old(|conns| < connsCap) || old(connsCap) == 512 then old(connsCap)
                          else if old(connsCap) == 0 then 16
                          else if 2 * old(connsCap) > 512 then 512 else 2 * old(connsCap)
    {
      hide IsVictim, PendingDistinct, IdsBelow, AddressesDistinct, HasAddress, IsPending;
      var slot := Connection(FreshLink(aa), nextId);
      if |conns| < connsCap {
        c := |conns|;
        conns := conns + [slot];
      } else if connsCap < CONNS_MAX {
        var grown := if connsCap > 0 then connsCap * 2 else CONNS_INIT_CAP;
        connsCap := if grown > CONNS_MAX then CONNS_MAX else grown;
        c := |conns|;
        conns := conns + [slot];
      } else {
        c := VictimIndex();
        conns := conns[c := slot];
      }
      NewSlot(old(conns), conns, c, slot, nextId);
      nextId := nextId + 1;
    }

    /** Position of `aa` in the tally, or -1. */
    method PendingIndex(aa: nat) returns (i: int)
      ensures i >= 0 ==> i < |pending| && pending[i].aa == aa
      ensures i < 0 ==> !IsPending(pending, aa)
    {
      i := 0;
      while i < |pending|
        invariant 0 <= i <= |pending|
        invariant forall j :: 0 <= j < i ==> pending[j].aa != aa
      {
        if pending[i].aa == aa {
          return;
        }
        i := i + 1;
      }
      i := -1;
    }

    /** Drop a tally entry by moving the last one into its place. */
    method PendingRemove(idx: nat)
      requires PendingDistinct(pending) && idx < |pending|
      modifies this`pending
      ensures PendingDistinct(pending) && |pending| == |old(pending)| - 1
      ensures Entries(pending) == Entries(old(pending)) - {old(pending)[idx]}
      ensures forall aa :: IsPending(pending, aa) ==> aa != old(pending)[idx].aa && IsPending(old(pending), aa)
    {
      SwapRemove(pending, idx);
      pending := pending[idx := pending[|pending| - 1]][..|pending| - 1];
    }

    /** Count one sighting of `aa`, evicting the oldest entry of a full tally; returns the new count. */
    method PendingBump(aa: nat) returns (count: nat, at: nat)
      requires PendingDistinct(pending) && |pending| <= PENDING_CAP
      modifies this`pending, this`pendingClock
      ensures PendingDistinct(pending) && |pending| <= PENDING_CAP
      ensures pendingClock == old(pendingClock) + 1
      ensures Sighted(old(pending), pending, aa, pendingClock, count)
      ensures at < |pending| && pending[at] == Pending(aa, count, pendingClock)
    {
      pendingClock := pendingClock + 1;
      var i := PendingIndex(aa);
      if i >= 0 {
        count, at := pending[i].count + 1, i;
        Replace(pending, i, Pending(aa, count, pendingClock));
        pending := pending[i := Pending(aa, count, pendingClock)];
        return;
      }
      if |pending| >= PENDING_CAP {
        var victim := OldestPending();
        PendingRemove(victim);
      }
      count, at := 1, |pending|;
      Append(pending, Pending(aa, 1, pendingClock));
      pending := pending + [Pending(aa, 1, pendingClock)];
    }

    method OldestPending() returns (victim: nat)
      requires pending != []
      ensures victim < |pending| && IsOldest(pending, pending[victim])
    {
      victim := 0;
      var i := 1;
      while i < |pending|
        invariant 1 <= i <= |pending| && victim < |pending|
        invariant forall j :: 0 <= j < i ==> pending[victim].stamp <= pending[j].stamp
      {
        if pending[i].stamp < pending[victim].stamp {
          victim := i;
        }
        i := i + 1;
      }
    }

    /** The slot of `aa`: found, forced, or earned by the third retained sighting; -1 when it has none yet. */
    method ConnAcquire(aa: nat, force: bool) returns (c: int)
      requires Valid()
      modifies this`conns, this`connsCap, this`nextId, this`pending, this`pendingClock
      ensures Valid() && nextId >= old(nextId)
      ensures c >= 0 ==> c < |conns| && conns[c].link.accessAddress == aa
      ensures Acquired(old(conns), conns, old(pending), pending, aa, force, old(nextId), pendingClock)
      ensures c < 0 ==> !HasAddress(conns, aa)
      ensures c >= 0 <==> HasAddress(old(conns), aa) || force || Retained(old(pending), aa) >= 2
    {
      hide IsVictim, IdsBelow, AddressesDistinct, SlotGiven, Retained, Sighted;
      c := ConnFind(aa);
      if c >= 0 {
        return;
      }
      RetainedIsCount(pending, aa);
      if force {
        ForgetPending(aa);
        c := ConnCreate(aa);
        return;
      }
      ghost var was := pending;
      var count, at := PendingBump(aa);
      SightingCounts(was, pending, aa, pendingClock, count, aa);
      if count >= PROMOTE_THRESHOLD {
        ghost var bumped := pending;
        PendingRemove(at);
        PromotedEntries(was, bumped, pending, aa, pendingClock, count, at);
        c := ConnCreate(aa);
        return;
      }
      SightedStaysValid(was, pending, conns, aa, pendingClock, count);
      c := -1;
    }

    method ForgetPending(aa: nat)
      requires Valid()
      modifies this`pending
      ensures Valid() && !IsPending(pending, aa) && Forgotten(old(pending), pending, aa)
    {
      hide IsVictim, IdsBelow, AddressesDistinct;
      var i := PendingIndex(aa);
      if i >= 0 {
        ghost var was := pending;
        PendingRemove(i);
        ForgottenEntries(was, pending, aa, i);
      }
    }

    /** Replace the link in a slot by one of the same address. */
    method SetLink(c: nat, l: Link)
      requires Valid() && c < |conns|
      requires l.Valid() && l.accessAddress == conns[c].link.accessAddress
      modifies this`conns
      ensures Valid() && conns == old(conns)[c := Connection(l, old(conns)[c].id)]
    {
      hide BleCrc.Crc;
      ghost var was := conns;
      conns := conns[c := Connection(l, conns[c].id)];
      assert forall aa :: HasAddress(conns, aa) ==> HasAddress(was, aa);
    }

    /** The CRC gate for one data PDU.  `touched` is the table once the address has its slot (or not):
        the slot's link goes through BleLink.Gate and no other slot changes. */
    method GateDataPdu(aa: nat, pdu: Word, rxCrc: Word) returns (verdict: Verdict, ghost touched: seq<Connection>)
      requires Valid() && |pdu| >= 16 && |pdu| % 8 == 0 && |rxCrc| == BleCrc.WIDTH
      modifies this, table
      ensures Valid() && nextId >= old(nextId) && clock >= old(clock)
      ensures Acquired(old(conns), touched, old(pending), pending, aa, false, old(nextId), pendingClock)
      ensures !HasAddress(touched, aa) ==> verdict == Dropped && conns == touched
      ensures HasAddress(touched, aa) ==> exists c :: GatedAt(touched, conns, c, aa, clock, pdu, rxCrc, verdict)
    {
      hide IsVictim, SlotGiven, Acquired, Sighted, Gate, AddressesDistinct, IdsBelow, PendingDistinct;
      table.TablesInit();
      var i := ConnAcquire(aa, false);
      touched := conns;
      if i < 0 {
        return Dropped, touched;
      }
      clock := clock + 1;
      var link := conns[i].link.(packetsSeen := conns[i].link.packetsSeen + 1, lastUsedSeq := clock);
      link, verdict := GateLink(link, pdu, rxCrc);
      SetLink(i, link);
      assert GatedAt(touched, conns, i, aa, clock, pdu, rxCrc, verdict);
    }

    /** The branches of the gate, with the CRC computed bit by bit. */
    method GateLink(l: Link, pdu: Word, rxCrc: Word) returns (m: Link, verdict: Verdict)
      requires table.Valid() && l.Valid()
      requires |pdu| >= 16 && |pdu| % 8 == 0 && |rxCrc| == BleCrc.WIDTH
      modifies table
      ensures table.Valid() && Gated(m, verdict) == Gate(l, pdu, rxCrc)
    {
      hide BleCrc.Crc, BleCrc.InitFor;
      m, verdict := l, Dropped;
      if l.state == Confirmed {
        var crc := BleCrc.CrcCalc(pdu, |pdu| / 8, l.crcInit);
        assert pdu[..8 * (|pdu| / 8)] == pdu;
        if crc == rxCrc {
          m, verdict := l.(packetsAccepted := l.packetsAccepted + 1), Accepted(l.crcInit);
        }
      } else if |pdu| == 8 * EMPTY_PDU_BYTES {
        var init := table.ReverseInitLen2(pdu, rxCrc);
        m := AddCandidate(l, init);
      } else {
        m, verdict := TryCandidates(l, pdu, rxCrc);
      }
    }

    /** Confirm the first candidate that explains the PDU. */
    method TryCandidates(l: Link, pdu: Word, rxCrc: Word) returns (m: Link, verdict: Verdict)
      requires l.Valid() && l.state == Collecting && |rxCrc| == BleCrc.WIDTH
      requires |pdu| > 16 && |pdu| % 8 == 0
      ensures Gated(m, verdict) == Gate(l, pdu, rxCrc)
    {
      hide BleCrc.Crc;
      var i := 0;
      while i < |l.candidates|
        invariant i <= |l.candidates|
        invariant FirstMatch(l.candidates, pdu, rxCrc, 0) == FirstMatch(l.candidates, pdu, rxCrc, i)
      {
        var crc := BleCrc.CrcCalc(pdu, |pdu| / 8, l.candidates[i]);
        assert pdu[..8 * (|pdu| / 8)] == pdu;
        if crc == rxCrc {
          var m := Confirm(l, l.candidates[i]);
          return m.(packetsAccepted := m.packetsAccepted + 1), Accepted(l.candidates[i]);
        }
        i := i + 1;
      }
      return l, Dropped;
    }

    /** A CRCInit announced by a CONNECT_IND: the address gets a slot at once, and a candidate unless it
        is already confirmed. */
    method SeedCandidate(aa: nat, init: Word) returns (ghost touched: seq<Connection>)
      requires Valid() && |init| == BleCrc.WIDTH
      modifies this
      ensures Valid() && nextId >= old(nextId) && clock == old(clock) + 1
      ensures Acquired(old(conns), touched, old(pending), pending, aa, true, old(nextId), pendingClock)
      ensures exists c :: SeededAt(touched, conns, c, aa, clock, init)
    {
      hide IsVictim, SlotGiven, Acquired, Sighted;
      var i := ConnAcquire(aa, true);
      touched := conns;
      clock := clock + 1;
      var link := conns[i].link.(lastUsedSeq := clock);
      if link.state != Confirmed {
        link := AddCandidate(link, init);
      }
      SetLink(i, link);
      assert SeededAt(touched, conns, i, aa, clock, init);
    }
  }

  ghost predicate GatedAt(was: seq<Connection>, now: seq<Connection>, c: nat, aa: nat, clock: nat,
                          pdu: Word, rxCrc: Word, verdict: Verdict)
    requires |pdu| >= 16 && |rxCrc| == BleCrc.WIDTH
  {
    && c < |was| && was[c].link.accessAddress == aa && was[c].link.Valid()
    && var seen := was[c].link.(packetsSeen := was[c].link.packetsSeen + 1, lastUsedSeq := clock);
    && var g := Gate(seen, pdu, rxCrc);
    && now == was[c := Connection(g.link, was[c].id)] && verdict == g.verdict
  }

  ghost predicate SeededAt(was: seq<Connection>, now: seq<Connection>, c: nat, aa: nat, clock: nat, init: Word)
    requires |init| == BleCrc.WIDTH
  {
    && c < |was| && was[c].link.accessAddress == aa && was[c].link.Valid()
    && var seen := was[c].link.(lastUsedSeq := clock);
    && now == was[c := Connection(Seed(seen, init), was[c].id)]
  }

  /** A slot is lost only in a full table; a confirmed one only when all are confirmed, and then it is
      the least recently used; an unconfirmed one only when no unconfirmed slot goes before it. */
  lemma EvictedLast(was: seq<Connection>, now: seq<Connection>, aa: nat, id: nat, i: nat)
    requires SlotGiven(was, now, aa, id) && i < |was| && (i >= |now| || now[i] != was[i])
    ensures |was| >= 512
    ensures was[i].link.state == Confirmed ==> AllConfirmed(was) && FirstLeastRecent(was, i, |was|)
    ensures was[i].link.state != Confirmed ==> FirstEvictable(was, i, |was|)
  {
    if |was| >= 512 {
      var v: nat :| IsVictim(was, v) && now == was[v := Connection(FreshLink(aa), id)];
      assert v == i;
    }
  }

  /** The victim in the links' own fields: confirmed only when all are, and then the least recently used; else
      without candidates if any unconfirmed link is, among those the one with the fewest packets as a 32-bit
      number, among those the least recently used; the first one when that does not decide. */
  lemma VictimIs(conns: seq<Connection>, v: nat)
    requires v < |conns|
    ensures (forall i :: 0 <= i < |conns| ==> conns[i].link.state == Confirmed) ==>
              (IsVictim(conns, v) <==>
                forall i :: 0 <= i < |conns| ==>
                  && conns[v].link.lastUsedSeq <= conns[i].link.lastUsedSeq
                  && (i < v ==> conns[v].link.lastUsedSeq != conns[i].link.lastUsedSeq))
    ensures (exists i :: 0 <= i < |conns| && conns[i].link.state != Confirmed) ==>
              (IsVictim(conns, v) <==>
                conns[v].link.state != Confirmed
                && forall i :: 0 <= i < |conns| && conns[i].link.state != Confirmed ==>
                     var a, b := conns[v].link, conns[i].link;
                     if a.candidates == [] && b.candidates != [] then true
                     else if a.candidates != [] && b.candidates == [] then false
                     else if a.packetsSeen % 0x1_0000_0000 != b.packetsSeen % 0x1_0000_0000 then
                       a.packetsSeen % 0x1_0000_0000 < b.packetsSeen % 0x1_0000_0000
                     else a.lastUsedSeq < b.lastUsedSeq || (a.lastUsedSeq == b.lastUsedSeq && v <= i))
  {
  }

  /** The tally without the entry of `aa`. */
  ghost predicate Forgotten(before: seq<Pending>, after: seq<Pending>, aa: nat) {
    Entries(after) == set e | e in before && e.aa != aa
  }

  /** What acquiring a slot does to both tables. */
  ghost predicate Acquired(was: seq<Connection>, now: seq<Connection>, before: seq<Pending>, after: seq<Pending>,
                           aa: nat, force: bool, id: nat, stamp: nat)
  {
    if HasAddress(was, aa) then now == was && after == before
    else if force || Retained(before, aa) >= 2 then
      SlotGiven(was, now, aa, id) && Forgotten(before, after, aa)
    else
      now == was && Sighted(before, after, aa, stamp, Retained(before, aa) + 1)
  }

  lemma ForgottenEntries(before: seq<Pending>, after: seq<Pending>, aa: nat, i: nat)
    requires PendingDistinct(before) && i < |before| && before[i].aa == aa
    requires Entries(after) == Entries(before) - {before[i]}
    ensures Forgotten(before, after, aa)
    ensures forall j :: 0 <= j < |after| ==> after[j] in before
  {
    assert forall e :: e in before && e.aa == aa ==> e == before[i];
    forall j | 0 <= j < |after| ensures after[j] in before {
      assert after[j] in Entries(after);
    }
  }

  lemma PromotedEntries(was: seq<Pending>, bumped: seq<Pending>, now: seq<Pending>, aa: nat, stamp: nat,
                        count: nat, at: nat)
    requires PendingDistinct(was) && PendingDistinct(bumped)
    requires Sighted(was, bumped, aa, stamp, count) && count > 1
    requires at < |bumped| && bumped[at] == Pending(aa, count, stamp)
    requires Entries(now) == Entries(bumped) - {bumped[at]}
    ensures Forgotten(was, now, aa)
    ensures forall j :: 0 <= j < |now| ==> now[j] in was
  {
    var e :| e in was && e.aa == aa && Entries(bumped) == Entries(was) - {e} + {Pending(aa, count, stamp)};
    forall x ensures x in Entries(now) <==> x in was && x.aa != aa {
      assert x in was && x.aa == aa ==> x == e;
      assert x in bumped && x.aa == aa ==> x == bumped[at];
      assert x in Entries(bumped) <==> x in bumped;
    }
    forall j | 0 <= j < |now| ensures now[j] in was {
      assert now[j] in Entries(now);
    }
  }

  lemma SightedStaysValid(was: seq<Pending>, now: seq<Pending>, conns: seq<Connection>, aa: nat, stamp: nat, count: nat)
    requires Sighted(was, now, aa, stamp, count) && 1 <= count < PROMOTE_THRESHOLD
    requires forall i :: 0 <= i < |was| ==> 1 <= was[i].count < PROMOTE_THRESHOLD
    requires forall a :: !(HasAddress(conns, a) && IsPending(was, a))
    requires !HasAddress(conns, aa)
    ensures forall i :: 0 <= i < |now| ==> 1 <= now[i].count < PROMOTE_THRESHOLD
    ensures forall a :: !(HasAddress(conns, a) && IsPending(now, a))
  {
    forall i | 0 <= i < |now|
      ensures 1 <= now[i].count < PROMOTE_THRESHOLD && !HasAddress(conns, now[i].aa)
    {
      assert now[i] in Entries(now);
      if now[i] in Entries(was) {
        assert IsPending(was, now[i].aa);
      }
    }
  }

  lemma NewBest(conns: seq<Connection>, best: nat, i: nat, found: bool)
    requires best < |conns| && i < |conns| && conns[i].link.state != Confirmed
    requires found ==> FirstEvictable(conns, best, i) && EvictBefore(conns[i].link, conns[best].link)
    requires !found ==> forall j :: 0 <= j < i ==> conns[j].link.state == Confirmed
    ensures FirstEvictable(conns, i, i + 1)
  {
    hide EvictBefore;
    EvictIrreflexive(conns[i].link);
    if found {
      forall j | 0 <= j < i && conns[j].link.state != Confirmed
        ensures EvictBefore(conns[i].link, conns[j].link)
      {
        EvictTransitive(conns[i].link, conns[best].link, conns[j].link);
      }
    }
  }

  lemma EvictIrreflexive(a: Link)
    ensures !EvictBefore(a, a)
  {
  }

  lemma EvictTransitive(a: Link, b: Link, c: Link)
    requires EvictBefore(a, b) && (EvictBefore(b, c) || !EvictBefore(c, b))
    ensures EvictBefore(a, c)
  {
  }

  /** A fresh address and a fresh id keep the table's invariants. */
  lemma NewSlot(was: seq<Connection>, now: seq<Connection>, c: nat, slot: Connection, next: nat)
    requires AddressesDistinct(was) && IdsBelow(was, next) && next > 0
    requires !HasAddress(was, slot.link.accessAddress) && slot.id == next
    requires c <= |was| && now == if c < |was| then was[c := slot] else was + [slot]
    ensures AddressesDistinct(now) && IdsBelow(now, next + 1)
    ensures forall aa :: HasAddress(now, aa) ==> aa == slot.link.accessAddress || HasAddress(was, aa)
  {
  }

  /** No address and no id has two slots. */
  lemma SlotsUnique(conns: seq<Connection>, next: nat, i: nat, j: nat)
    requires AddressesDistinct(conns) && IdsBelow(conns, next) && i < |conns| && j < |conns|
    ensures conns[i].link.accessAddress == conns[j].link.accessAddress || conns[i].id == conns[j].id ==> i == j
    ensures 0 < conns[i].id < next
  {
  }

  lemma Append(p: seq<Pending>, e: Pending)
    requires PendingDistinct(p) && !IsPending(p, e.aa)
    ensures PendingDistinct(p + [e]) && Entries(p + [e]) == Entries(p) + {e}
  {
  }

  lemma Replace(p: seq<Pending>, i: nat, e: Pending)
    requires PendingDistinct(p) && i < |p| && p[i].aa == e.aa
    ensures PendingDistinct(p[i := e]) && Entries(p[i := e]) == Entries(p) - {p[i]} + {e}
  {
    var q := p[i := e];
    forall x ensures x in q <==> x == e || (x in p && x != p[i]) {
      if x in p && x != p[i] {
        var j :| 0 <= j < |p| && p[j] == x;
        assert q[j] == x;
      }
      assert q[i] == e;
    }
  }

  lemma SwapRemove(p: seq<Pending>, i: nat)
    requires PendingDistinct(p) && i < |p|
    ensures var q := p[i := p[|p| - 1]][..|p| - 1];
            && PendingDistinct(q) && Entries(q) == Entries(p) - {p[i]}
            && forall aa :: IsPending(q, aa) ==> aa != p[i].aa && IsPending(p, aa)
  {
    var n := |p| - 1;
    var q := p[i := p[n]][..n];
    forall x ensures x in q <==> x in p && x != p[i] {
      if x in p && x != p[i] {
        var j :| 0 <= j < |p| && p[j] == x;
        assert if j == n then q[i] == x else q[j] == x;
      }
    }
  }

  /** What happens to the tally as slots are acquired. */
  datatype TallyStep = Sighting(aa: nat, stamp: nat) | Slotted(aa: nat)

  ghost predicate TallyMoves(before: seq<Pending>, step: TallyStep, after: seq<Pending>) {
    match step
    case Sighting(aa, stamp) => Sighted(before, after, aa, stamp, Retained(before, aa) + 1)
    case Slotted(aa) => Forgotten(before, after, aa)
  }

  ghost predicate TallyRun(tallies: seq<seq<Pending>>, steps: seq<TallyStep>) {
    && |tallies| == |steps| + 1
    && (forall i :: 0 <= i < |tallies| ==> PendingDistinct(tallies[i]))
    && (forall i :: 0 <= i < |steps| ==> TallyMoves(tallies[i], steps[i], tallies[i + 1]))
  }

  function Sightings(steps: seq<TallyStep>, aa: nat): (n: nat) {
    if |steps| == 0 then 0
    else
      var last := steps[|steps| - 1];
      Sightings(steps[..|steps| - 1], aa) + (if last.Sighting? && last.aa == aa then 1 else 0)
  }

  /** While an address keeps its entry, the entry counts its sightings, whatever else is sighted,
      evicted or given a slot in between. */
  lemma {:induction false} RunCounts(tallies: seq<seq<Pending>>, steps: seq<TallyStep>, aa: nat)
    requires TallyRun(tallies, steps)
    requires forall i :: 0 < i <= |steps| ==> IsPending(tallies[i], aa)
    ensures Retained(tallies[|steps|], aa) == Retained(tallies[0], aa) + Sightings(steps, aa)
  {
    hide IsPending, PendingDistinct, TallyMoves, Retained;
    if |steps| > 0 {
      var n := |steps| - 1;
      RunCounts(tallies[..n + 1], steps[..n], aa);
      StepCounts(tallies[n], steps[n], tallies[n + 1], aa);
    }
  }

  lemma StepCounts(before: seq<Pending>, step: TallyStep, after: seq<Pending>, aa: nat)
    requires PendingDistinct(before) && PendingDistinct(after) && TallyMoves(before, step, after)
    requires IsPending(after, aa)
    ensures Retained(after, aa) == Retained(before, aa) + if step.Sighting? && step.aa == aa then 1 else 0
  {
    hide Sighted, Retained;
    RetainedIsCount(before, aa);
    RetainedIsCount(after, aa);
    var i :| 0 <= i < |after| && after[i].aa == aa;
    if step.Slotted? {
      assert after[i] in Entries(after);
    } else if step.aa == aa {
      SightingCounts(before, after, aa, step.stamp, Retained(before, aa) + 1, aa);
    } else {
      SameOtherEntries(before, after, step.aa, step.stamp, Retained(before, step.aa) + 1, aa);
    }
  }

  /** An address never seen earns its slot with the third sighting, if its entry survives until then. */
  lemma ThirdSightingEarns(tallies: seq<seq<Pending>>, steps: seq<TallyStep>, aa: nat)
    requires TallyRun(tallies, steps) && !IsPending(tallies[0], aa)
    requires forall i :: 0 < i <= |steps| ==> IsPending(tallies[i], aa)
    ensures Retained(tallies[|steps|], aa) >= 2 <==> Sightings(steps, aa) >= 2
  {
    RetainedIsCount(tallies[0], aa);
    RunCounts(tallies, steps, aa);
  }

  /** The clock reading of an address's last sighting; 0 when it was not sighted. */
  function LastSighting(steps: seq<TallyStep>, aa: nat): (stamp: nat) {
    if |steps| == 0 then 0
    else
      var last := steps[|steps| - 1];
      if last.Sighting? && last.aa == aa then last.stamp else LastSighting(steps[..|steps| - 1], aa)
  }

  /** In a run from an empty tally every entry carries the clock reading of its last sighting. */
  lemma {:induction false} StampIsLast(tallies: seq<seq<Pending>>, steps: seq<TallyStep>, e: Pending)
    requires TallyRun(tallies, steps) && tallies[0] == [] && e in tallies[|steps|]
    ensures e.stamp == LastSighting(steps, e.aa)
  {
    hide PendingDistinct, Retained, Sighted;
    var n := |steps| - 1;
    var before, after := tallies[n], tallies[n + 1];
    assert TallyMoves(before, steps[n], after);
    StepStamps(before, steps[n], after, e);
    if e in before {
      StampIsLast(tallies[..n + 1], steps[..n], e);
    }
  }

  lemma StepStamps(before: seq<Pending>, step: TallyStep, after: seq<Pending>, e: Pending)
    requires PendingDistinct(before) && PendingDistinct(after) && TallyMoves(before, step, after) && e in after
    ensures if step.Sighting? && step.aa == e.aa then e.stamp == step.stamp else e in before
  {
    hide Retained;
    assert e in Entries(after);
    if step.Sighting? {
      var n := Pending(step.aa, Retained(before, step.aa) + 1, step.stamp);
      assert n in Entries(after);
      assert n in after;
      assert e == n || e in Entries(before);
    }
  }

  /** An entry is pushed out only by a newcomer to a tally of 1024, and it is the least recently sighted one. */
  lemma LeastRecentGoes(tallies: seq<seq<Pending>>, steps: seq<TallyStep>, n: nat, lost: nat, kept: nat)
    requires TallyRun(tallies, steps) && tallies[0] == [] && n < |steps|
    requires IsPending(tallies[n], lost) && !IsPending(tallies[n + 1], lost)
    requires steps[n] != Slotted(lost) && IsPending(tallies[n], kept)
    ensures steps[n].Sighting? && !IsPending(tallies[n], steps[n].aa) && |tallies[n]| >= 1024
    ensures LastSighting(steps[..n], lost) <= LastSighting(steps[..n], kept)
  {
    var before, after := tallies[n], tallies[n + 1];
    assert TallyMoves(before, steps[n], after);
    var i :| 0 <= i < |before| && before[i].aa == lost;
    var k :| 0 <= k < |before| && before[k].aa == kept;
    assert TallyRun(tallies[..n + 1], steps[..n]);
    StampIsLast(tallies[..n + 1], steps[..n], before[i]);
    StampIsLast(tallies[..n + 1], steps[..n], before[k]);
    LostEntry(before, steps[n], after, before[i]);
  }

  lemma LostEntry(before: seq<Pending>, step: TallyStep, after: seq<Pending>, e: Pending)
    requires PendingDistinct(before) && PendingDistinct(after) && TallyMoves(before, step, after)
    requires e in before && !IsPending(after, e.aa) && step != Slotted(e.aa)
    ensures step.Sighting? && !IsPending(before, step.aa) && |before| >= 1024
    ensures forall other :: other in before ==> e.stamp <= other.stamp
  {
    hide Retained;
    assert e !in Entries(after);
    if step.Slotted? {
      assert false;
    }
    var count := Retained(before, step.aa) + 1;
    var n := Pending(step.aa, count, step.stamp);
    assert n in Entries(after);
    assert n in after;
  }
}
