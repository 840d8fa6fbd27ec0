/** CRCInit learning for one access address: candidates come from empty PDUs and CONNECT_INDs, and a
    candidate that explains a non-empty PDU is confirmed. */
module BleLink {
  import opened Bits
  import opened Wrappers
  import BleCrc

  const MAX_CANDIDATES: nat := 4
  const EMPTY_PDU_BYTES: nat := 2

  datatype LinkState = Collecting | Confirmed

  datatype Link = Link(accessAddress: nat, state: LinkState, crcInit: Word, candidates: seq<Word>,
                       packetsSeen: nat, packetsAccepted: nat, lastUsedSeq: nat)
  {
    predicate Valid() {
      && |crcInit| == BleCrc.WIDTH
      && |candidates| <= MAX_CANDIDATES
      && (forall i :: 0 <= i < |candidates| ==> |candidates[i]| == BleCrc.WIDTH)
      && (forall i, j :: 0 <= i < j < |candidates| ==> candidates[i] != candidates[j])
      && (state == Confirmed ==> candidates == [])
    }
  }

  /** Nothing learnt, nothing counted. */
  function FreshLink(aa: nat): (l: Link)
    ensures l.Valid() && l.accessAddress == aa && l.state == Collecting && l.candidates == []
    ensures l.packetsSeen == l.packetsAccepted == l.lastUsedSeq == 0
  {
    Link(aa, Collecting, Zeros(BleCrc.WIDTH), [], 0, 0, 0)
  }

  /** Keep the four newest distinct candidates. */
  function AddCandidate(l: Link, init: Word): (m: Link)
    requires l.Valid() && l.state == Collecting && |init| == BleCrc.WIDTH
    ensures m.Valid() && m == l.(candidates := m.candidates)
    ensures init in m.candidates
    ensures forall c :: c in m.candidates ==> c == init || c in l.candidates
    ensures init in l.candidates ==> m == l
    ensures init !in l.candidates && |l.candidates| < MAX_CANDIDATES ==> m.candidates == l.candidates + [init]
    ensures init !in l.candidates && |l.candidates| == MAX_CANDIDATES ==>
              m.candidates == l.candidates[1..] + [init]
  {
    if init in l.candidates then l
    else if |l.candidates| < MAX_CANDIDATES then l.(candidates := l.candidates + [init])
    else l.(candidates := l.candidates[1..] + [init])
  }

  function Confirm(l: Link, init: Word): (m: Link)
    requires l.Valid() && |init| == BleCrc.WIDTH
    ensures m.Valid()
  {
    l.(state := Confirmed, crcInit := init, candidates := [])
  }

  /** The candidates from index i on that explain the PDU: the first one, or none. */
  function FirstMatch(candidates: seq<Word>, pdu: Word, rxCrc: Word, i: nat): (k: nat)
    requires forall j :: 0 <= j < |candidates| ==> |candidates[j]| == BleCrc.WIDTH
    requires i <= |candidates|
    ensures i <= k <= |candidates|
    ensures k < |candidates| ==> BleCrc.Crc(candidates[k], pdu) == rxCrc
    ensures forall j :: i <= j < k ==> BleCrc.Crc(candidates[j], pdu) != rxCrc
    decreases |candidates| - i
  {
    if i == |candidates| || BleCrc.Crc(candidates[i], pdu) == rxCrc then i
    else FirstMatch(candidates, pdu, rxCrc, i + 1)
  }

  datatype Verdict = Dropped | Accepted(crcInit: Word)

  datatype Gated = Gated(link: Link, verdict: Verdict)

  /** The CRC gate for one data PDU of the link's access address. */
  function Gate(l: Link, pdu: Word, rxCrc: Word): (g: Gated)
    requires l.Valid() && |pdu| >= 16 && |rxCrc| == BleCrc.WIDTH
    ensures g.link.Valid() && g.link.accessAddress == l.accessAddress
    ensures g.link.packetsAccepted == l.packetsAccepted + if g.verdict.Accepted? then 1 else 0
    ensures g.link.packetsSeen == l.packetsSeen && g.link.lastUsedSeq == l.lastUsedSeq
  {
    if l.state == Confirmed then
      if BleCrc.Crc(l.crcInit, pdu) == rxCrc then
        Gated(l.(packetsAccepted := l.packetsAccepted + 1), Accepted(l.crcInit))
      else Gated(l, Dropped)
    else if |pdu| == 8 * EMPTY_PDU_BYTES then
      Gated(AddCandidate(l, BleCrc.InitFor(rxCrc, pdu)), Dropped)
    else
      var k := FirstMatch(l.candidates, pdu, rxCrc, 0);
      if k < |l.candidates| then
        Gated(Confirm(l, l.candidates[k]).(packetsAccepted := l.packetsAccepted + 1), Accepted(l.candidates[k]))
      else Gated(l, Dropped)
  }

  /** A CRCInit announced by a CONNECT_IND: a candidate unless the link is confirmed. */
  function Seed(l: Link, init: Word): (m: Link)
    requires l.Valid() && |init| == BleCrc.WIDTH
    ensures m.Valid() && m.accessAddress == l.accessAddress
    ensures l.state == Confirmed ==> m == l
    ensures l.state == Collecting ==> init in m.candidates && m == l.(candidates := m.candidates)
  {
    if l.state == Confirmed then l else AddCandidate(l, init)
  }

  ghost predicate ErrorFree(init: Word, pdu: Word, rxCrc: Word)
    requires |init| == BleCrc.WIDTH
  {
    |pdu| >= 16 && rxCrc == BleCrc.Crc(init, pdu)
  }

  /** Nothing wrong has been confirmed. */
  ghost predicate Sound(l: Link, init: Word) {
    l.state == Confirmed ==> l.crcInit == init
  }

  /** Safety: an error-free PDU of a link whose CRCInit is `init` is accepted only under `init`, and
      leaves nothing else confirmed, whatever candidates have been collected or seeded. */
  lemma GateSound(l: Link, init: Word, pdu: Word, rxCrc: Word)
    requires l.Valid() && |init| == BleCrc.WIDTH && ErrorFree(init, pdu, rxCrc) && Sound(l, init)
    ensures var g := Gate(l, pdu, rxCrc);
            Sound(g.link, init) && (g.verdict.Accepted? ==> g.verdict.crcInit == init)
  {
    if l.state == Collecting && |pdu| != 16 {
      var k := FirstMatch(l.candidates, pdu, rxCrc, 0);
      if k < |l.candidates| {
        BleCrc.InitUnique(l.candidates[k], init, pdu);
      }
    }
  }

  /** Completeness: an empty error-free PDU makes `init` a candidate; while it is one, the next non-empty
      error-free PDU is accepted and confirms it. */
  lemma GateLearns(l: Link, init: Word, pdu: Word, rxCrc: Word)
    requires l.Valid() && |init| == BleCrc.WIDTH && ErrorFree(init, pdu, rxCrc) && l.state == Collecting
    ensures var g := Gate(l, pdu, rxCrc);
            if |pdu| == 16 then
              g.link == AddCandidate(l, init) && g.verdict == Dropped
            else if init in l.candidates then
              g.link.state == Confirmed && g.link.crcInit == init && g.verdict == Accepted(init)
            else g.link == l && g.verdict == Dropped
  {
    BleCrc.CrcBijective(init, pdu, rxCrc);
    if |pdu| != 16 {
      var k := FirstMatch(l.candidates, pdu, rxCrc, 0);
      if k < |l.candidates| {
        BleCrc.InitUnique(l.candidates[k], init, pdu);
      }
      if init in l.candidates {
        var j :| 0 <= j < |l.candidates| && l.candidates[j] == init;
        assert BleCrc.Crc(l.candidates[j], pdu) == rxCrc;
      }
    }
  }

  /** A confirmed link never changes its CRCInit, whatever arrives. */
  lemma ConfirmedIsFinal(l: Link, pdu: Word, rxCrc: Word)
    requires l.Valid() && l.state == Confirmed && |pdu| >= 16 && |rxCrc| == BleCrc.WIDTH
    ensures var g := Gate(l, pdu, rxCrc);
            && g.link.state == Confirmed && g.link.crcInit == l.crcInit
            && (g.verdict.Accepted? <==> BleCrc.Crc(l.crcInit, pdu) == rxCrc)
  {
  }

  /** The link after a run of PDUs received without error. */
  function AfterRun(l: Link, init: Word, pdus: seq<Word>): (m: Link)
    requires l.Valid() && |init| == BleCrc.WIDTH
    requires forall i :: 0 <= i < |pdus| ==> |pdus[i]| >= 16
    ensures m.Valid()
  {
    if |pdus| == 0 then l
    else
      var before := AfterRun(l, init, pdus[..|pdus| - 1]);
      var pdu := pdus[|pdus| - 1];
      Gate(before, pdu, BleCrc.Crc(init, pdu)).link
  }

  predicate IsEmptyPdu(pdu: Word) {
    |pdu| == 16
  }

  /** An empty PDU occurs in the run. */
  ghost predicate SeenEmpty(pdus: seq<Word>) {
    exists i :: 0 <= i < |pdus| && IsEmptyPdu(pdus[i])
  }

  /** A non-empty PDU occurs after an empty one. */
  ghost predicate SeenPair(pdus: seq<Word>) {
    exists j :: 0 <= j < |pdus| && !IsEmptyPdu(pdus[j]) && SeenEmpty(pdus[..j])
  }

  /** Learning is exact: starting from a fresh link, after any error-free run the CRCInit is confirmed
      if and only if a non-empty PDU followed an empty one, and is a candidate if and only if an
      empty PDU was seen and no non-empty one since; nothing else is ever learnt. */
  lemma {:induction false} LearningExact(aa: nat, init: Word, pdus: seq<Word>)
    requires |init| == BleCrc.WIDTH
    requires forall i :: 0 <= i < |pdus| ==> |pdus[i]| >= 16
    ensures var l := AfterRun(FreshLink(aa), init, pdus);
            && (l.state == Confirmed <==> SeenPair(pdus))
            && (l.state == Confirmed ==> l.crcInit == init)
            && (l.state == Collecting ==> l.candidates == if SeenEmpty(pdus) then [init] else [])
  {
    hide Gate;
    if |pdus| > 0 {
      var n := |pdus| - 1;
      var p, pdu := pdus[..n], pdus[n];
      LearningExact(aa, init, p);
      var before := AfterRun(FreshLink(aa), init, p);
      if before.state == Confirmed {
        ConfirmedIsFinal(before, pdu, BleCrc.Crc(init, pdu));
      } else {
        GateLearns(before, init, pdu, BleCrc.Crc(init, pdu));
      }
      SeenGrows(pdus);
    }
  }

  lemma SeenGrows(pdus: seq<Word>)
    requires |pdus| > 0
    ensures var p, pdu := pdus[..|pdus| - 1], pdus[|pdus| - 1];
            && (SeenEmpty(pdus) <==> SeenEmpty(p) || IsEmptyPdu(pdu))
            && (SeenPair(pdus) <==> SeenPair(p) || (SeenEmpty(p) && !IsEmptyPdu(pdu)))
  {
    var n := |pdus| - 1;
    var p := pdus[..n];
    assert forall j :: 0 <= j <= n ==> p[..j] == pdus[..j];
    if SeenEmpty(p) {
      var i :| 0 <= i < |p| && IsEmptyPdu(p[i]);
      assert IsEmptyPdu(pdus[i]);
    }
    if SeenPair(p) {
      var j :| 0 <= j < |p| && !IsEmptyPdu(p[j]) && SeenEmpty(p[..j]);
      assert !IsEmptyPdu(pdus[j]);
    }
    if SeenPair(pdus) {
      var j :| 0 <= j < |pdus| && !IsEmptyPdu(pdus[j]) && SeenEmpty(pdus[..j]);
      if j < n {
        assert !IsEmptyPdu(p[j]);
      }
    }
  }

  /** Once confirmed, every further error-free PDU is accepted, empty ones included. */
  lemma AcceptedEverAfter(aa: nat, init: Word, pdus: seq<Word>, pdu: Word)
    requires |init| == BleCrc.WIDTH && |pdu| >= 16
    requires forall i :: 0 <= i < |pdus| ==> |pdus[i]| >= 16
    ensures var g := Gate(AfterRun(FreshLink(aa), init, pdus), pdu, BleCrc.Crc(init, pdu));
            g.verdict == if SeenPair(pdus + [pdu]) then Accepted(init) else Dropped
  {
    hide Gate;
    LearningExact(aa, init, pdus);
    assert (pdus + [pdu])[..|pdus|] == pdus;
    SeenGrows(pdus + [pdu]);
    var l := AfterRun(FreshLink(aa), init, pdus);
    if l.state == Confirmed {
      ConfirmedAccepts(l, pdu);
    } else {
      GateLearns(l, init, pdu, BleCrc.Crc(init, pdu));
    }
  }

  lemma ConfirmedAccepts(l: Link, pdu: Word)
    requires l.Valid() && l.state == Confirmed && |pdu| >= 16
    ensures Gate(l, pdu, BleCrc.Crc(l.crcInit, pdu)).verdict == Accepted(l.crcInit)
  {
  }

  /** What a link meets: data PDUs as received, damaged or not, and announced CRCInits. */
  datatype Event = Received(pdu: Word, rxCrc: Word) | Seeded(init: Word)

  predicate WellFormed(e: Event) {
    match e
    case Received(pdu, rxCrc) => |pdu| >= 16 && |rxCrc| == BleCrc.WIDTH
    case Seeded(init) => |init| == BleCrc.WIDTH
  }

  predicate AllWellFormed(events: seq<Event>) {
    forall i :: 0 <= i < |events| ==> WellFormed(events[i])
  }

  function Next(l: Link, e: Event): (m: Link)
    requires l.Valid() && WellFormed(e)
    ensures m.Valid()
  {
    match e
    case Received(pdu, rxCrc) => Gate(l, pdu, rxCrc).link
    case Seeded(init) => Seed(l, init)
  }

  function AfterEvents(l: Link, events: seq<Event>): (m: Link)
    requires l.Valid() && AllWellFormed(events)
    ensures m.Valid()
  {
    if |events| == 0 then l else Next(AfterEvents(l, events[..|events| - 1]), events[|events| - 1])
  }

  /** The CRCInit an event speaks for: the one that explains an empty PDU, or the announced one. */
  function Offer(e: Event): (o: Option<Word>)
    requires WellFormed(e)
    ensures o.Some? ==> |o.value| == BleCrc.WIDTH
  {
    match e
    case Received(pdu, rxCrc) => if IsEmptyPdu(pdu) then Some(BleCrc.InitFor(rxCrc, pdu)) else None
    case Seeded(init) => Some(init)
  }

  /** How many events speak for some other CRCInit. */
  function Rivals(events: seq<Event>, init: Word): (n: nat)
    requires AllWellFormed(events)
  {
    if |events| == 0 then 0
    else
      var o := Offer(events[|events| - 1]);
      Rivals(events[..|events| - 1], init) + (if o.Some? && o.value != init then 1 else 0)
  }

  ghost predicate Offered(events: seq<Event>, init: Word)
    requires AllWellFormed(events)
  {
    exists i :: 0 <= i < |events| && Offer(events[i]) == Some(init)
  }

  /** A non-empty PDU whose CRC fits the CRCInit. */
  ghost predicate Fits(e: Event, init: Word)
    requires |init| == BleCrc.WIDTH
  {
    e.Received? && !IsEmptyPdu(e.pdu) && BleCrc.Crc(init, e.pdu) == e.rxCrc
  }

  /** The CRCInit was offered, and a later non-empty PDU fits it. */
  ghost predicate Evident(events: seq<Event>, init: Word)
    requires AllWellFormed(events) && |init| == BleCrc.WIDTH
  {
    exists j :: 0 <= j < |events| && Fits(events[j], init) && Offered(events[..j], init)
  }

  /** One event: a candidate list changes by the event's offer alone, and only evidence confirms. */
  lemma NextCases(l: Link, e: Event)
    requires l.Valid() && WellFormed(e)
    ensures var m, o := Next(l, e), Offer(e);
            if l.state == Confirmed then m.state == Confirmed && m.crcInit == l.crcInit
            else if o.Some? then m == AddCandidate(l, o.value)
            else m == l || (m.state == Confirmed && m.crcInit in l.candidates && Fits(e, m.crcInit))
  {
    hide BleCrc.Crc, BleCrc.InitFor;
  }

  /** Room left before a candidate is displaced: the free places and the older candidates. */
  function Slack(l: Link, i: nat): (n: nat)
    requires l.Valid() && i < |l.candidates|
  {
    4 - |l.candidates| + i
  }

  /** A candidate stays one, whatever else arrives, until the link is confirmed or more rivals were
      offered than there is slack. */
  lemma {:induction false} StaysCandidate(l: Link, i: nat, events: seq<Event>)
    requires l.Valid() && i < |l.candidates| && AllWellFormed(events)
    requires Rivals(events, l.candidates[i]) <= Slack(l, i)
    ensures var m := AfterEvents(l, events);
            || m.state == Confirmed
            || exists k :: 0 <= k < |m.candidates| && m.candidates[k] == l.candidates[i]
                           && Slack(m, k) + Rivals(events, l.candidates[i]) >= Slack(l, i)
  {
    hide Next, Offer;
    if |events| > 0 {
      var init, p, e := l.candidates[i], events[..|events| - 1], events[|events| - 1];
      StaysCandidate(l, i, p);
      var before := AfterEvents(l, p);
      NextCases(before, e);
      if before.state == Collecting {
        var k :| 0 <= k < |before.candidates| && before.candidates[k] == init
                 && Slack(before, k) + Rivals(p, init) >= Slack(l, i);
        var m := AfterEvents(l, events);
        assert m.state == Confirmed || m.candidates[if m.candidates == before.candidates
                 || |before.candidates| < MAX_CANDIDATES then k else k - 1] == init;
      }
    }
  }

  function Newest(q: seq<Word>): (r: seq<Word>) {
    if |q| <= 4 then q else q[|q| - 4..]
  }

  lemma NewestStep(q: seq<Word>, w: Word)
    requires w !in q
    ensures w !in Newest(q)
    ensures var r := Newest(q);
            Newest(q + [w]) == if |r| < 4 then r + [w] else r[1..] + [w]
  {
  }

  lemma NewestNext(l: Link, e: Event, q: seq<Word>, w: Word)
    requires l.Valid() && l.state == Collecting && WellFormed(e)
    requires l.candidates == Newest(q) && w !in q && Offer(e) == Some(w)
    ensures Next(l, e) == l.(candidates := Newest(q + [w]))
  {
    hide Next, Offer, Newest;
    NextCases(l, e);
    NewestStep(q, w);
  }

  /** The events offer these CRCInits, none of them a candidate or offered twice. */
  ghost predicate NewOffers(l: Link, events: seq<Event>, offers: seq<Word>)
    requires AllWellFormed(events)
  {
    && |offers| == |events|
    && (forall i :: 0 <= i < |events| ==> Offer(events[i]) == Some(offers[i]))
    && (forall i :: 0 <= i < |offers| ==> offers[i] !in l.candidates)
    && (forall i, j :: 0 <= i < j < |offers| ==> offers[i] != offers[j])
  }

  lemma NewOffersSplit(l: Link, events: seq<Event>, offers: seq<Word>, n: nat)
    requires AllWellFormed(events) && |events| == n + 1 && NewOffers(l, events, offers)
    ensures NewOffers(l, events[..n], offers[..n])
    ensures Offer(events[n]) == Some(offers[n]) && offers[n] !in l.candidates + offers[..n]
    ensures l.candidates + offers == (l.candidates + offers[..n]) + [offers[n]]
  {
    hide Offer;
  }

  /** New distinct offers displace older ones: the four newest are kept. */
  lemma {:induction false} NewestKept(l: Link, events: seq<Event>, offers: seq<Word>)
    requires l.Valid() && l.state == Collecting && AllWellFormed(events) && NewOffers(l, events, offers)
    ensures AfterEvents(l, events) == l.(candidates := Newest(l.candidates + offers))
  {
    if |events| == 0 {
      assert l.candidates + offers == l.candidates;
    } else {
      var n := |events| - 1;
      NewOffersSplit(l, events, offers, n);
      hide Next, Offer, Newest, NewOffers;
      NewestKept(l, events[..n], offers[..n]);
      NewestNext(AfterEvents(l, events[..n]), events[n], l.candidates + offers[..n], offers[n]);
    }
  }

  /** Nothing is learnt without evidence, however damaged the PDUs are: candidates were offered, and a
      confirmed CRCInit was offered and fits a later non-empty PDU. */
  lemma {:induction false} LearntFromEvidence(aa: nat, events: seq<Event>)
    requires AllWellFormed(events)
    ensures var m := AfterEvents(FreshLink(aa), events);
            && (forall c :: c in m.candidates ==> Offered(events, c))
            && (m.state == Confirmed ==> Evident(events, m.crcInit))
  {
    hide Next, Offer, Fits;
    if |events| > 0 {
      var p, e := events[..|events| - 1], events[|events| - 1];
      LearntFromEvidence(aa, p);
      var before := AfterEvents(FreshLink(aa), p);
      NextCases(before, e);
      forall c | Offered(p, c) ensures Offered(events, c) {
        OfferedGrows(events, c);
      }
      var m := AfterEvents(FreshLink(aa), events);
      if m.state == Confirmed {
        EvidentGrows(events, m.crcInit);
      }
    }
  }

  lemma OfferedGrows(events: seq<Event>, init: Word)
    requires AllWellFormed(events) && |events| > 0
    ensures Offered(events[..|events| - 1], init) ==> Offered(events, init)
  {
    var p := events[..|events| - 1];
    if Offered(p, init) {
      var i :| 0 <= i < |p| && Offer(p[i]) == Some(init);
      assert Offer(events[i]) == Some(init);
    }
  }

  lemma EvidentGrows(events: seq<Event>, init: Word)
    requires AllWellFormed(events) && |events| > 0 && |init| == BleCrc.WIDTH
    ensures Evident(events[..|events| - 1], init) ==> Evident(events, init)
    ensures Offered(events[..|events| - 1], init) && Fits(events[|events| - 1], init) ==> Evident(events, init)
  {
    hide Offer, Fits;
    var p := events[..|events| - 1];
    if Evident(p, init) {
      var j :| 0 <= j < |p| && Fits(p[j], init) && Offered(p[..j], init);
      assert p[..j] == events[..j] && Fits(events[j], init);
    }
  }

  lemma {:induction false} EventsSplit(l: Link, a: seq<Event>, b: seq<Event>)
    requires l.Valid() && AllWellFormed(a) && AllWellFormed(b)
    ensures AfterEvents(l, a + b) == AfterEvents(AfterEvents(l, a), b)
    decreases |b|
  {
    hide Next;
    if |b| == 0 {
      assert a + b == a;
    } else {
      var n := |b| - 1;
      EventsSplit(l, a, b[..n]);
      assert (a + b)[..|a| + n] == a + b[..n];
    }
  }

  /** Learning in noise: once the true CRCInit is newly offered, the next error-free non-empty PDU finds
      the link confirmed or confirms it, if at most three rivals were offered in between; and a wrong
      one is confirmed only if damaged events made it evident. */
  lemma LearnsInNoise(aa: nat, init: Word, early: seq<Event>, offer: Event, late: seq<Event>, pdu: Word)
    requires |init| == BleCrc.WIDTH && |pdu| >= 16 && !IsEmptyPdu(pdu)
    requires AllWellFormed(early) && WellFormed(offer) && AllWellFormed(late) && Offer(offer) == Some(init)
    requires init !in AfterEvents(FreshLink(aa), early).candidates
    requires Rivals(late, init) < 4
    ensures var events := early + [offer] + late;
            var l := AfterEvents(FreshLink(aa), events);
            var g := Gate(l, pdu, BleCrc.Crc(init, pdu));
            && g.link.state == Confirmed
            && (l.state == Collecting ==> g.verdict == Accepted(init))
            && (g.link.crcInit == init || Evident(events, g.link.crcInit))
  {
    hide AfterEvents, Offer, Gate, Evident;
    EventsSplit(FreshLink(aa), early + [offer], late);
    LearntFromEvidence(aa, early + [offer] + late);
    NewlyOffered(FreshLink(aa), init, early, offer);
    var l := AfterEvents(FreshLink(aa), early + [offer] + late);
    KeptInNoise(AfterEvents(FreshLink(aa), early + [offer]), init, late);
    if l.state == Confirmed {
      ConfirmedIsFinal(l, pdu, BleCrc.Crc(init, pdu));
    } else {
      GateLearns(l, init, pdu, BleCrc.Crc(init, pdu));
    }
  }

  lemma NewlyOffered(l: Link, init: Word, early: seq<Event>, offer: Event)
    requires l.Valid() && AllWellFormed(early) && WellFormed(offer) && Offer(offer) == Some(init)
    requires init !in AfterEvents(l, early).candidates
    ensures var m := AfterEvents(l, early + [offer]);
            m.state == Confirmed || (m.candidates != [] && m.candidates[|m.candidates| - 1] == init)
  {
    hide Next, Offer;
    NextCases(AfterEvents(l, early), offer);
    assert (early + [offer])[..|early|] == early;
  }

  lemma KeptInNoise(l: Link, init: Word, late: seq<Event>)
    requires l.Valid() && AllWellFormed(late) && Rivals(late, init) < 4
    requires l.state == Confirmed || (l.candidates != [] && l.candidates[|l.candidates| - 1] == init)
    ensures var m := AfterEvents(l, late); m.state == Confirmed || init in m.candidates
  {
    hide AfterEvents, Rivals, Offer;
    if l.state == Confirmed {
      StaysConfirmed(l, late);
    } else {
      StaysCandidate(l, |l.candidates| - 1, late);
    }
  }

  lemma {:induction false} StaysConfirmed(l: Link, events: seq<Event>)
    requires l.Valid() && l.state == Confirmed && AllWellFormed(events)
    ensures var m := AfterEvents(l, events); m.state == Confirmed && m.crcInit == l.crcInit
  {
    hide Next, Offer;
    if |events| > 0 {
      var p := events[..|events| - 1];
      StaysConfirmed(l, p);
      NextCases(AfterEvents(l, p), events[|events| - 1]);
    }
  }
}
