/** The BR/EDR framer reports exactly the packets of the stream, wherever they lie in it. */
module BredrStream {
  import opened Bits
  import opened Distances
  import opened Wrappers
  import opened BredrScan
  import opened BredrFramer
  import BredrSync

  lemma Patterns()
    ensures FromNat(BredrSync.BARKER_A, 7) == [true, true, true, false, false, true, false]
    ensures FromNat(BredrSync.BARKER_B, 7) == [false, false, false, true, true, false, true]
  {
  }

  lemma CodeMatches(w: Word, maxErrors: nat)
    requires |w| == 64
    ensures BredrSync.Matches(w, maxErrors) <==> IsCode(w, w[34..58], maxErrors)
  {
    hide FromNat, Distance, BredrSync.SyncWord;
    Patterns();
  }

  lemma InquiryLaps(lap: Word)
    requires |lap| == 24
    ensures IsInquiry(lap) <==> Inquiry(lap)
  {
    assert Pow2(8) == 0x100 && Pow2(16) == 0x100 * Pow2(8) && Pow2(24) == 0x100 * Pow2(16);
    hide FromNat, ToNat, Pow2;
    ToNatFromNat(GIAC, 24);
    ToNatFromNat(LIAC, 24);
    if Inquiry(lap) {
      ToNatInjective(lap, FromNat(ToNat(lap), 24));
    }
  }

  /** The bits searched so far that still matter. */
  function Prior(s: Framing): (p: Word)
    requires |s.window| == 64 && s.seen <= 64
    ensures |p| == s.seen
  {
    s.window[64 - s.seen..]
  }

  /** The framer after k more bits without an access code. */
  function Slid(s: Framing, bits: Word): (n: Framing)
    requires |s.window| == 64
    ensures |n.window| == 64
  {
    var k := |bits|;
    Framing((s.window + bits)[k..], if s.seen + k < 64 then s.seen + k else 64, s.total + k, Searching)
  }

  /** What the window holds is what the scanner looks at. */
  lemma SlidWindow(s: Framing, bits: Word)
    requires s.Valid()
    ensures Prior(Slid(s, bits)) == Tail(Prior(s) + bits)
    ensures s.seen + |bits| >= 64 ==> Slid(s, bits).window == Newest(Prior(s) + bits)
  {
  }

  lemma SlidMore(s: Framing, bits: Word, b: bool)
    requires |s.window| == 64 && s.seen <= 64
    ensures var q := Slid(s, bits);
            && q.seen <= 64 && q.phase == Searching
            && Slid(s, bits + [b])
               == Framing(q.window[1..] + [b], if q.seen < 64 then q.seen + 1 else 64, q.total + 1, Searching)
  {
  }

  lemma CodeSeen(s: Framing, bits: Word, n: nat, maxErrors: nat)
    requires s.Valid() && 0 < n <= |bits|
    ensures var q := Slid(s, bits[..n]);
            CodeAt(Prior(s), bits, n, maxErrors) <==> q.seen == 64 && BredrSync.Matches(q.window, maxErrors)
  {
    hide IsCode, BredrSync.Matches;
    SlidWindow(s, bits[..n]);
    CodeMatches(Slid(s, bits[..n]).window, maxErrors);
  }

  /** One searched bit: a detection exactly where the scanner sees an access code. */
  lemma SearchedBit(s: Framing, bits: Word, n: nat, maxErrors: nat)
    requires s.Valid() && 0 < n <= |bits|
    ensures var q := Slid(s, bits[..n]);
            Step(Slid(s, bits[..n - 1]), bits[n - 1], maxErrors)
            == if CodeAt(Prior(s), bits, n, maxErrors) then Detection(q) else Outcome(q, Seeking, [])
  {
    hide CodeAt, BredrSync.Matches, Detection, Slid;
    var p, b := bits[..n - 1], bits[n - 1];
    assert bits[..n] == p + [b];
    SlidMore(s, p, b);
    CodeSeen(s, bits, n, maxErrors);
  }

  /** Without an access code the framer only slides its window. */
  lemma {:induction false} Sliding(s: Framing, bits: Word, n: nat, maxErrors: nat)
    requires s.Valid() && s.phase.Searching? && n <= |bits|
    requires forall k :: 0 < k <= n ==> !CodeAt(Prior(s), bits, k, maxErrors)
    ensures Run(s, bits[..n], maxErrors) == History(Slid(s, bits[..n]), [])
    decreases n
  {
    hide Step, Run, CodeAt;
    if n == 0 {
      assert bits[..0] == [];
      RunNothing(s, bits[..0], maxErrors);
      assert s.window + [] == s.window;
    } else {
      Sliding(s, bits, n - 1, maxErrors);
      RunStep(s, bits[..n - 1], bits[n - 1], maxErrors);
      assert bits[..n] == bits[..n - 1] + [bits[n - 1]];
      SearchedBit(s, bits, n, maxErrors);
    }
  }

  /** Up to and including the bit that completes the next access code. */
  lemma ToCode(s: Framing, bits: Word, n: nat, maxErrors: nat)
    requires s.Valid() && s.phase.Searching? && 0 < n <= |bits|
    requires n == NextCode(Prior(s), bits, 1, maxErrors)
    ensures var o := Detection(Slid(s, bits[..n]));
            Run(s, bits[..n], maxErrors) == History(o.next, o.frames)
  {
    hide Step, Run, CodeAt, Detection, Slid;
    Sliding(s, bits, n - 1, maxErrors);
    RunStep(s, bits[..n - 1], bits[n - 1], maxErrors);
    assert bits[..n] == bits[..n - 1] + [bits[n - 1]];
    SearchedBit(s, bits, n, maxErrors);
  }

  lemma AlternatingTrailer(last: bool, s: Word)
    requires |s| >= 4
    ensures s[..4] == TrailerFor(last) <==> !(s[0] == last || s[1] == s[0] || s[2] == s[1] || s[3] == s[2])
  {
    var t := TrailerFor(last);
    if s[..4] == t {
      assert s[..4][0] == s[0] && s[..4][1] == s[1] && s[..4][2] == s[2] && s[..4][3] == s[3];
    }
  }

  /** What the framer makes of a detected access code and the bits behind it. */
  ghost predicate Follows(q: Framing, rest: Word, maxErrors: nat)
    requires q.Valid() && q.seen == 64 && q.phase.Searching?
  {
    var o, b := Detection(q), BodyOf(q.window, rest);
    if b.Incomplete? then
      var h := Run(o.next, rest, maxErrors);
      o.frames + h.frames == [] && !h.now.phase.Searching?
    else
      var g := Run(o.next, rest[..Extent(b)], maxErrors);
      && o.frames + g.frames == [FrameAt(q.window, b, q.total)]
      && g.now == q.(total := q.total + Extent(b))
  }

  lemma Behind(q: Framing, rest: Word, maxErrors: nat)
    requires q.Valid() && q.seen == 64 && q.phase.Searching?
    ensures Follows(q, rest, maxErrors)
  {
    hide Run, Step, TrailerFor, Inquiry, IsInquiry, BredrSync.SyncWord, Distance;
    var w := q.window;
    var o := Detection(q);
    InquiryLaps(w[34..58]);
    if Inquiry(w[34..58]) {
      RunNothing(o.next, rest[..0], maxErrors);
    } else {
      if |rest| >= 4 {
        AlternatingTrailer(w[63], rest);
        TrailerRun(o.next, rest[..4], maxErrors);
      }
      if |rest| >= 4 && rest[..4] != TrailerFor(w[63]) {
      } else if |rest| < 3057 {
        PacketPart(o.next, rest, maxErrors);
      } else {
        var t := rest[..3057];
        assert t[..4] == rest[..4];
        PacketRun(o.next, t, maxErrors);
        assert t[4..58] == rest[4..58] && t[58..] == rest[58..3057];
      }
    }
  }

  /** The framer's frames are the scanner's, and it searches exactly when the scanner does not stand inside a
      packet, with the same bits in its window. */
  ghost predicate Agree(h: History, r: Scanned, total: nat) {
    && h.frames == r.frames && h.now.total == total && h.now.Valid()
    && (r.tail.Some? <==> h.now.phase.Searching?)
    && (r.tail.Some? ==> Prior(h.now) == r.tail.value)
  }

  lemma ScanUnfolds(prior: Word, s: Word, at: nat, maxErrors: nat)
    ensures var n := NextCode(prior, s, 1, maxErrors);
            Scan(prior, s, at, maxErrors) ==
              if n > |s| then Scanned([], Some(Tail(prior + s)))
              else
                var w, rest := Newest(prior + s[..n]), s[n..];
                var b := BodyOf(w, rest);
                if b.Incomplete? then Scanned([], None)
                else Prepend(FrameAt(w, b, at + n), Scan(w, rest[Extent(b)..], at + n + Extent(b), maxErrors))
  {
    hide NextCode, CodeAt, IsCode, BodyOf, FrameAt, Newest, Tail, Extent, StartOf, Prepend;
  }

  /** From any searching state, for every stream: the framer reports exactly the packets of the stream. */
  lemma {:induction false} FromSearching(s: Framing, bits: Word, maxErrors: nat)
    requires s.Valid() && s.phase.Searching?
    ensures Agree(Run(s, bits, maxErrors), Scan(Prior(s), bits, s.total, maxErrors), s.total + |bits|)
    decreases |bits|
  {
    hide Run, CodeAt, Detection, BodyOf, Slid, FrameAt, Scan, NextCode, Newest, Prior, Extent, Tail;
    var n := NextCode(Prior(s), bits, 1, maxErrors);
    ScanUnfolds(Prior(s), bits, s.total, maxErrors);
    Counted(s, bits, maxErrors);
    if n > |bits| {
      Sliding(s, bits, |bits|, maxErrors);
      assert bits[..|bits|] == bits;
      SlidWindow(s, bits);
      SlidTotal(s, bits);
    } else {
      AtCode(s, bits, n, maxErrors);
      var q, rest := Slid(s, bits[..n]), bits[n..];
      var b := BodyOf(q.window, rest);
      if b.Incomplete? {
        ToCode(s, bits, n, maxErrors);
        assert bits == bits[..n] + rest;
        RunSplits(s, bits[..n], rest, maxErrors);
      } else {
        var k := Extent(b);
        Onward(s, bits, n, k, maxErrors);
        FromSearching(q.(total := q.total + k), rest[k..], maxErrors);
        PriorAgain(q, k);
      }
    }
  }

  lemma PriorAgain(q: Framing, k: nat)
    requires |q.window| == 64 && q.seen <= 64
    ensures Prior(q.(total := q.total + k)) == Prior(q)
  {
  }

  lemma SlidTotal(s: Framing, bits: Word)
    requires s.Valid()
    ensures var q := Slid(s, bits); q.Valid() && q.phase == Searching && q.total == s.total + |bits|
  {
  }

  /** Every bit is counted. */
  lemma {:induction false} Counted(s: Framing, bits: Word, maxErrors: nat)
    requires s.Valid()
    ensures Run(s, bits, maxErrors).now.total == s.total + |bits|
  {
    hide Step;
    if |bits| > 0 {
      Counted(s, bits[..|bits| - 1], maxErrors);
    }
  }

  lemma AtCode(s: Framing, bits: Word, n: nat, maxErrors: nat)
    requires s.Valid() && s.phase.Searching? && 0 < n <= |bits|
    requires n == NextCode(Prior(s), bits, 1, maxErrors)
    ensures var q := Slid(s, bits[..n]);
            && q.Valid() && q.seen == 64 && q.phase == Searching && q.total == s.total + n
            && q.window == Newest(Prior(s) + bits[..n]) == Prior(q)
            && Follows(q, bits[n..], maxErrors)
  {
    hide IsCode, Follows, Slid;
    SlidWindow(s, bits[..n]);
    SlidTotal(s, bits[..n]);
    CodeSeen(s, bits, n, maxErrors);
    Behind(Slid(s, bits[..n]), bits[n..], maxErrors);
  }

  /** Through an access code and the k bits that belong to it, and on from there. */
  lemma Onward(s: Framing, bits: Word, n: nat, k: nat, maxErrors: nat)
    requires s.Valid() && s.phase.Searching? && 0 < n <= |bits| && k <= |bits| - n
    requires n == NextCode(Prior(s), bits, 1, maxErrors)
    ensures var o := Detection(Slid(s, bits[..n]));
            var g := Run(o.next, bits[n..][..k], maxErrors);
            var h := Run(g.now, bits[n..][k..], maxErrors);
            Run(s, bits, maxErrors) == History(h.now, o.frames + g.frames + h.frames)
  {
    hide Run, Step, CodeAt, Detection, Slid;
    ToCode(s, bits, n, maxErrors);
    var a, b, c := bits[..n], bits[n..][..k], bits[n..][k..];
    assert bits == (a + b) + c;
    RunSplits(s, a, b, maxErrors);
    RunSplits(s, a + b, c, maxErrors);
  }

  /** From the start, for every stream. */
  lemma ReportsThePackets(bits: Word, maxErrors: nat)
    ensures Agree(Run(Init(), bits, maxErrors), Scan([], bits, 0, maxErrors), |bits|)
  {
    FromSearching(Init(), bits, maxErrors);
    assert Prior(Init()) == [];
  }

  /** The next bit is recognised as the end of an access code with this LAP. */
  predicate Finds(o: Outcome, lap: Word) {
    if o.frames != [] then o.frames[0].lap == lap else o.next.phase.Trailer? && o.next.phase.code.lap == lap
  }

  /** Wherever the framer has been searching for the last 63 bits, it finds an access code with the next bit if
      and only if the 64 newest bits of the stream are one. */
  lemma FindsExactly(p: Word, g: Word, b: bool, lap: Word, maxErrors: nat)
    requires |lap| == 24 && |g| >= 63
    requires var s, h := Run(Init(), p, maxErrors), Run(Init(), p + g, maxErrors);
             s.now.phase.Searching? && h.now.phase.Searching? && h.frames == s.frames
    ensures Finds(Step(Run(Init(), p + g, maxErrors).now, b, maxErrors), lap)
       <==> IsCode(Newest(p + g + [b]), lap, maxErrors)
  {
    hide Run, Step, IsCode, Finds, Newest, NextCode;
    var s := Run(Init(), p, maxErrors);
    RunSplits(Init(), p, g, maxErrors);
    NoneFound(s.now, g, s.frames, maxErrors);
    FindsNext(s.now, g, b, lap, maxErrors);
    NewestOf(p, g, b);
  }

  lemma NewestOf(p: Word, g: Word, b: bool)
    requires |g| >= 63
    ensures Newest(p + g + [b]) == Newest(g + [b])
  {
  }

  lemma NoneFound(s: Framing, g: Word, earlier: seq<Frame>, maxErrors: nat)
    requires s.Valid() && s.phase.Searching?
    requires var h := Run(s, g, maxErrors); h.now.phase.Searching? && earlier + h.frames == earlier
    ensures NextCode(Prior(s), g, 1, maxErrors) > |g|
  {
    hide Run, NextCode, BodyOf, FrameAt;
    FromSearching(s, g, maxErrors);
    assert |Run(s, g, maxErrors).frames| == 0;
  }

  lemma FindsNext(s: Framing, g: Word, b: bool, lap: Word, maxErrors: nat)
    requires s.Valid() && s.phase.Searching? && |lap| == 24 && |g| >= 63
    requires NextCode(Prior(s), g, 1, maxErrors) > |g|
    ensures Finds(Step(Run(s, g, maxErrors).now, b, maxErrors), lap) <==> IsCode(Newest(g + [b]), lap, maxErrors)
  {
    hide Run, CodeAt, Step, IsCode, Finds, Slid, Detection;
    var bits, n := g + [b], |g|;
    assert bits[..n] == g && bits[..n + 1] == bits;
    Quiet(Prior(s), g, bits, maxErrors);
    Sliding(s, bits, n, maxErrors);
    SearchedBit(s, bits, n + 1, maxErrors);
    SlidWindow(s, bits);
    SlidTotal(s, bits);
    assert Newest(Prior(s) + bits) == Newest(bits);
    FoundLap(Slid(s, bits), lap);
    CodeHere(Prior(s), bits, maxErrors);
    CodeLap(Newest(bits), lap, maxErrors);
  }

  lemma Quiet(prior: Word, g: Word, bits: Word, maxErrors: nat)
    requires |g| <= |bits| && bits[..|g|] == g
    requires forall k :: 0 < k <= |g| ==> !CodeAt(prior, g, k, maxErrors)
    ensures forall k :: 0 < k <= |g| ==> !CodeAt(prior, bits, k, maxErrors)
  {
    hide IsCode;
    forall k | 0 < k <= |g| ensures !CodeAt(prior, bits, k, maxErrors) {
      assert bits[..k] == g[..k];
      assert !CodeAt(prior, g, k, maxErrors);
    }
  }

  lemma CodeHere(prior: Word, s: Word, maxErrors: nat)
    requires |s| >= 64
    ensures CodeAt(prior, s, |s|, maxErrors) <==> IsCode(Newest(s), Newest(s)[34..58], maxErrors)
  {
    assert s[..|s|] == s && Newest(prior + s) == Newest(s);
  }

  lemma CodeLap(w: Word, lap: Word, maxErrors: nat)
    requires |w| == 64 && |lap| == 24
    ensures IsCode(w, lap, maxErrors) <==> w[34..58] == lap && IsCode(w, w[34..58], maxErrors)
  {
  }

  lemma FoundLap(q: Framing, lap: Word)
    requires |q.window| == 64 && q.phase.Searching?
    ensures Finds(Detection(q), lap) <==> q.window[34..58] == lap
    ensures !Finds(Outcome(q, Seeking, []), lap)
  {
  }

  /** A packet as sent after the preamble: sync word, alternating trailer, header, payload. */
  function OnAir(lap: Word, header: Word, payload: Word): (w: Word)
    requires |lap| == 24
  {
    var w := BredrSync.SyncWord(lap);
    w + [!w[63], w[63], !w[63], w[63]] + header + payload
  }

  /** No access code ends before the sync word does. */
  ghost predicate Undisturbed(s: Framing, lap: Word, maxErrors: nat)
    requires s.Valid() && |lap| == 24
  {
    forall m :: 0 < m < 64 ==> !CodeAt(Prior(s), BredrSync.SyncWord(lap), m, maxErrors)
  }

  /** The scanner meets a sync word sent at its position. */
  lemma MeetsSync(s: Framing, lap: Word, rest: Word, maxErrors: nat)
    requires s.Valid() && |lap| == 24
    ensures var bits := BredrSync.SyncWord(lap) + rest;
            var n := NextCode(Prior(s), bits, 1, maxErrors);
            && n <= 64 && (n == 64 <==> Undisturbed(s, lap, maxErrors))
            && Newest(Prior(s) + bits[..64]) == BredrSync.SyncWord(lap) == bits[..64]
  {
    hide IsCode, BredrSync.SyncWord;
    var w := BredrSync.SyncWord(lap);
    var bits := w + rest;
    BredrSync.Recognised(lap, maxErrors);
    CodeMatches(w, maxErrors);
    assert bits[..64] == w && Newest(Prior(s) + w) == w;
    assert CodeAt(Prior(s), bits, 64, maxErrors);
    forall m | 0 < m < 64
      ensures CodeAt(Prior(s), bits, m, maxErrors) == CodeAt(Prior(s), w, m, maxErrors)
    {
      assert bits[..m] == w[..m];
    }
  }

  lemma StartsDiffer(a: nat, b: nat)
    requires a < b <= a + 64
    ensures StartOf(a) != StartOf(b)
  {
  }

  function Sent(lap: Word, header: Word, payload: Word, end: nat): Frame {
    Frame(StartOf(end), lap, 0, true, header, payload)
  }

  function BehindSync(last: bool, header: Word, payload: Word): Word {
    [!last, last, !last, last] + header + payload
  }

  lemma OnAirParts(lap: Word, header: Word, payload: Word)
    requires |lap| == 24
    ensures var w := BredrSync.SyncWord(lap);
            OnAir(lap, header, payload) == w + BehindSync(w[63], header, payload)
  {
  }

  /** A sync word that is met is followed by its own bits. */
  lemma MeetsBody(s: Framing, lap: Word, rest: Word, maxErrors: nat)
    requires s.Valid() && |lap| == 24 && Undisturbed(s, lap, maxErrors)
    ensures var w := BredrSync.SyncWord(lap);
            var b, end := BodyOf(w, rest), s.total + 64;
            Scan(Prior(s), w + rest, s.total, maxErrors) ==
              if b.Incomplete? then Scanned([], None)
              else Prepend(FrameAt(w, b, end), Scan(w, rest[Extent(b)..], end + Extent(b), maxErrors))
  {
    hide Undisturbed, NextCode, BodyOf, FrameAt, BredrSync.SyncWord, Extent, Scan, Newest, Prepend;
    var w := BredrSync.SyncWord(lap);
    MeetsSync(s, lap, rest, maxErrors);
    ScanUnfolds(Prior(s), w + rest, s.total, maxErrors);
    assert (w + rest)[64..] == rest;
  }

  lemma FrameOfSync(w: Word, lap: Word, b: Body, end: nat)
    requires |lap| == 24 && w == BredrSync.SyncWord(lap)
    ensures FrameAt(w, b, end) ==
              if b.Whole? then Sent(lap, b.header, b.payload, end) else Frame(StartOf(end), lap, 0, false, [], [])
  {
    BredrSync.Recognised(lap, 0);
    hide BredrSync.SyncWord, Distance, StartOf;
  }

  lemma BodySent(w: Word, header: Word, payload: Word)
    requires |w| == 64 && !Inquiry(w[34..58]) && |header| == 54 && |payload| == 2999
    ensures BodyOf(w, BehindSync(w[63], header, payload)) == Whole(header, payload)
  {
    hide Inquiry;
    var t := BehindSync(w[63], header, payload);
    assert t[4..58] == header && t[58..3057] == payload;
  }

  lemma SentWhole(s: Framing, lap: Word, header: Word, payload: Word, maxErrors: nat)
    requires s.Valid() && |lap| == 24 && !Inquiry(lap) && |header| == 54 && |payload| == 2999
    requires Undisturbed(s, lap, maxErrors)
    ensures Scan(Prior(s), OnAir(lap, header, payload), s.total, maxErrors)
         == Scanned([Sent(lap, header, payload, s.total + 64)], Some(BredrSync.SyncWord(lap)))
  {
    hide Undisturbed, Inquiry, BodyOf, FrameAt, OnAir, BehindSync, BredrSync.SyncWord, Scan, Sent;
    var w := BredrSync.SyncWord(lap);
    var rest := BehindSync(w[63], header, payload);
    OnAirParts(lap, header, payload);
    MeetsBody(s, lap, rest, maxErrors);
    BredrSync.SyncCarriesLap(lap);
    BodySent(w, header, payload);
    FrameOfSync(w, lap, Whole(header, payload), s.total + 64);
    BehindLength(w[63], header, payload);
    NothingLeft(w, rest[3057..], s.total + 64 + 3057, maxErrors);
  }

  lemma BehindLength(last: bool, header: Word, payload: Word)
    requires |header| == 54 && |payload| == 2999
    ensures |BehindSync(last, header, payload)| == 3057
  {
  }

  lemma NothingLeft(w: Word, s: Word, at: nat, maxErrors: nat)
    requires |w| == 64 && s == []
    ensures Scan(w, s, at, maxErrors) == Scanned([], Some(w))
  {
    assert w + s == w;
  }

  lemma SentPart(s: Framing, lap: Word, header: Word, payload: Word, maxErrors: nat, n: nat)
    requires s.Valid() && |lap| == 24 && !Inquiry(lap) && |header| == 54 && |payload| == 2999 && n < 3121
    requires Undisturbed(s, lap, maxErrors)
    ensures Scan(Prior(s), OnAir(lap, header, payload)[..n], s.total, maxErrors).frames == []
  {
    hide CodeAt, Inquiry, FrameAt, OnAir, BehindSync, BredrSync.SyncWord, BodyOf;
    var w := BredrSync.SyncWord(lap);
    var rest := BehindSync(w[63], header, payload);
    OnAirParts(lap, header, payload);
    BehindLength(w[63], header, payload);
    var bits := (w + rest)[..n];
    if n < 64 {
      assert w[..n] == bits;
      QuietPart(Prior(s), w, bits, maxErrors);
    } else {
      hide Scan, NextCode, Undisturbed;
      assert bits == w + rest[..n - 64];
      MeetsBody(s, lap, rest[..n - 64], maxErrors);
      BredrSync.SyncCarriesLap(lap);
      PartIsIncomplete(w, header, payload, n - 64);
    }
  }

  lemma QuietPart(prior: Word, w: Word, g: Word, maxErrors: nat)
    requires |g| <= |w| && w[..|g|] == g
    requires forall k :: 0 < k <= |g| ==> !CodeAt(prior, w, k, maxErrors)
    ensures NextCode(prior, g, 1, maxErrors) == |g| + 1
  {
    hide IsCode;
    forall k | 0 < k <= |g| ensures !CodeAt(prior, g, k, maxErrors) {
      assert g[..k] == w[..k];
      assert !CodeAt(prior, w, k, maxErrors);
    }
  }

  lemma PartIsIncomplete(w: Word, header: Word, payload: Word, n: nat)
    requires |w| == 64 && !Inquiry(w[34..58]) && |header| == 54 && |payload| == 2999 && n < 3057
    ensures |BehindSync(w[63], header, payload)| == 3057
    ensures BodyOf(w, BehindSync(w[63], header, payload)[..n]) == Incomplete
  {
    hide Inquiry;
  }

  lemma FirstStart(prior: Word, bits: Word, at: nat, maxErrors: nat)
    requires NextCode(prior, bits, 1, maxErrors) <= |bits|
    ensures var r := Scan(prior, bits, at, maxErrors);
            r.frames == [] || r.frames[0].start == StartOf(at + NextCode(prior, bits, 1, maxErrors))
  {
    hide NextCode, BodyOf, FrameAt, StartOf, Newest, Extent;
  }

  /** An access code across the front of the packet makes the first frame start elsewhere. */
  lemma SentElsewhere(s: Framing, lap: Word, header: Word, payload: Word, maxErrors: nat)
    requires s.Valid() && |lap| == 24 && !Undisturbed(s, lap, maxErrors)
    ensures var r := Scan(Prior(s), OnAir(lap, header, payload), s.total, maxErrors);
            r.frames == [] || r.frames[0] != Sent(lap, header, payload, s.total + 64)
  {
    hide Undisturbed, NextCode, BodyOf, OnAir, BehindSync, BredrSync.SyncWord, FrameAt, StartOf, Scan, Newest, Distance;
    var w := BredrSync.SyncWord(lap);
    var rest := BehindSync(w[63], header, payload);
    OnAirParts(lap, header, payload);
    MeetsSync(s, lap, rest, maxErrors);
    FirstStart(Prior(s), w + rest, s.total, maxErrors);
    StartsDiffer(s.total + NextCode(Prior(s), w + rest, 1, maxErrors), s.total + 64);
  }

  /** A packet sent anywhere in a stream: nothing is reported before its last bit; then it is reported whole, at
      the position of its first preamble bit, if and only if no access code was seen across its front. */
  lemma RoundTrip(p: Word, lap: Word, header: Word, payload: Word, maxErrors: nat, n: nat)
    requires |lap| == 24 && !Inquiry(lap) && |header| == 54 && |payload| == 2999
    requires Run(Init(), p, maxErrors).now.phase.Searching?
    ensures var was, bits := Run(Init(), p, maxErrors), OnAir(lap, header, payload);
            var h := Run(Init(), p + bits, maxErrors);
            var sent := Frame((|p| - 4) % 0x1_0000_0000_0000_0000, lap, 0, true, header, payload);
            && |bits| == 3121
            && (h.frames == was.frames + [sent] <==> Undisturbed(was.now, lap, maxErrors))
            && (Undisturbed(was.now, lap, maxErrors) ==>
                  && h.now.phase.Searching? && Prior(h.now) == bits[..64]
                  && (n < |bits| ==> Run(Init(), p + bits[..n], maxErrors).frames == was.frames))
  {
    hide Run, Undisturbed, Inquiry, OnAir, Scan, BredrSync.SyncWord;
    var was, bits := Run(Init(), p, maxErrors), OnAir(lap, header, payload);
    var w := BredrSync.SyncWord(lap);
    OnAirParts(lap, header, payload);
    BehindLength(w[63], header, payload);
    Counted(Init(), p, maxErrors);
    RunSplits(Init(), p, bits, maxErrors);
    FromSearching(was.now, bits, maxErrors);
    if Undisturbed(was.now, lap, maxErrors) {
      SentWhole(was.now, lap, header, payload, maxErrors);
      if n < |bits| {
        SentPart(was.now, lap, header, payload, maxErrors, n);
        RunSplits(Init(), p, bits[..n], maxErrors);
        FromSearching(was.now, bits[..n], maxErrors);
        assert was.frames + [] == was.frames;
      }
    } else {
      SentElsewhere(was.now, lap, header, payload, maxErrors);
      FirstDiffers(was.frames, Scan(Prior(was.now), bits, |p|, maxErrors).frames, Sent(lap, header, payload, |p| + 64));
    }
  }

  lemma FirstDiffers(q: seq<Frame>, r: seq<Frame>, f: Frame)
    requires r == [] || r[0] != f
    ensures q + r != q + [f]
  {
    assert (q + r)[|q|..] == r && (q + [f])[|q|..] == [f];
  }

  /** A shortened access code anywhere in a stream: an inquiry is reported with the last bit of its sync word, a
      sync word with another trailer after four bits; without header in either case. */
  lemma IdPackets(p: Word, lap: Word, t: Word, maxErrors: nat)
    requires |lap| == 24 && |t| == 4
    requires Run(Init(), p, maxErrors).now.phase.Searching?
    requires Undisturbed(Run(Init(), p, maxErrors).now, lap, maxErrors)
    ensures var was, w := Run(Init(), p, maxErrors), BredrSync.SyncWord(lap);
            var id := Frame((|p| - 4) % 0x1_0000_0000_0000_0000, lap, 0, false, [], []);
            if Inquiry(lap) then Run(Init(), p + w, maxErrors).frames == was.frames + [id]
            else if t != [!w[63], w[63], !w[63], w[63]] then
              Run(Init(), p + (w + t), maxErrors).frames == was.frames + [id]
            else Run(Init(), p + (w + t), maxErrors).frames == was.frames
  {
    hide Run, Undisturbed, Inquiry, Scan, BredrSync.SyncWord;
    var was, w := Run(Init(), p, maxErrors), BredrSync.SyncWord(lap);
    var more := if Inquiry(lap) then [] else t;
    Counted(Init(), p, maxErrors);
    RunSplits(Init(), p, w + more, maxErrors);
    FromSearching(was.now, w + more, maxErrors);
    ScanId(was.now, lap, more, maxErrors);
    assert w + [] == w && was.frames + [] == was.frames;
  }

  lemma BodyOfId(w: Word, t: Word)
    requires |w| == 64 && if Inquiry(w[34..58]) then t == [] else |t| == 4
    ensures var alternates := t == [!w[63], w[63], !w[63], w[63]];
            BodyOf(w, t) == if Inquiry(w[34..58]) || !alternates then Shortened(|t|) else Incomplete
  {
    hide Inquiry;
  }

  lemma ScanId(s: Framing, lap: Word, t: Word, maxErrors: nat)
    requires s.Valid() && |lap| == 24 && Undisturbed(s, lap, maxErrors)
    requires if Inquiry(lap) then t == [] else |t| == 4
    ensures var w := BredrSync.SyncWord(lap);
            Scan(Prior(s), w + t, s.total, maxErrors).frames
            == if Inquiry(lap) || t != [!w[63], w[63], !w[63], w[63]] then
                 [Frame(StartOf(s.total + 64), lap, 0, false, [], [])]
               else []
  {
    hide Undisturbed, Inquiry, BredrSync.SyncWord, StartOf, Scan, FrameAt, BodyOf;
    var w := BredrSync.SyncWord(lap);
    MeetsBody(s, lap, t, maxErrors);
    BredrSync.SyncCarriesLap(lap);
    BodyOfId(w, t);
    var b := BodyOf(w, t);
    FrameOfSync(w, lap, b, s.total + 64);
    if !b.Incomplete? {
      NothingLeft(w, t[Extent(b)..], s.total + 64 + Extent(b), maxErrors);
    }
  }

  /** Two packets with a gap between them, anywhere in a stream: both are reported, the second one as if it were
      alone, if no access code ends in the gap or across the second one's front. */
  lemma SecondPacket(p: Word, lap: Word, header: Word, payload: Word, gap: Word,
                     lap': Word, header': Word, payload': Word, maxErrors: nat)
    requires |lap| == 24 && !Inquiry(lap) && |header| == 54 && |payload| == 2999
    requires |lap'| == 24 && !Inquiry(lap') && |header'| == 54 && |payload'| == 2999
    requires Run(Init(), p, maxErrors).now.phase.Searching?
    requires Undisturbed(Run(Init(), p, maxErrors).now, lap, maxErrors)
    requires forall m :: 0 < m < |gap| + 64 ==>
               !CodeAt(BredrSync.SyncWord(lap), gap + BredrSync.SyncWord(lap'), m, maxErrors)
    ensures var first, second := OnAir(lap, header, payload), OnAir(lap', header', payload');
            Run(Init(), p + first + gap + second, maxErrors).frames
            == Run(Init(), p, maxErrors).frames
               + [Frame((|p| - 4) % 0x1_0000_0000_0000_0000, lap, 0, true, header, payload),
                  Frame((|p| + 3121 + |gap| - 4) % 0x1_0000_0000_0000_0000, lap', 0, true, header', payload')]
  {
    hide Run, Undisturbed, Inquiry, OnAir, CodeAt, BredrSync.SyncWord, Prior, Framing.Valid;
    var first := OnAir(lap, header, payload);
    RoundTrip(p, lap, header, payload, maxErrors, 0);
    var s := Run(Init(), p + first, maxErrors);
    assert first[..64] == BredrSync.SyncWord(lap) by {
      OnAirParts(lap, header, payload);
    }
    GapPasses(s.now, gap, lap', maxErrors);
    RunSplits(Init(), p + first, gap, maxErrors);
    assert s.frames + [] == s.frames;
    var q := p + first + gap;
    RoundTrip(q, lap', header', payload', maxErrors, 0);
    assert |q| == |p| + 3121 + |gap|;
  }

  lemma GapPasses(s: Framing, gap: Word, lap: Word, maxErrors: nat)
    requires s.Valid() && s.phase.Searching? && |lap| == 24
    requires forall m :: 0 < m < |gap| + 64 ==>
               !CodeAt(Prior(s), gap + BredrSync.SyncWord(lap), m, maxErrors)
    ensures var h := Run(s, gap, maxErrors);
            h.frames == [] && h.now.phase.Searching? && Undisturbed(h.now, lap, maxErrors)
  {
    hide Run, CodeAt, BredrSync.SyncWord;
    var w := BredrSync.SyncWord(lap);
    var all := gap + w;
    assert all[..|gap|] == gap;
    Sliding(s, all, |gap|, maxErrors);
    var n := Slid(s, gap);
    SlidWindow(s, gap);
    forall m | 0 < m < 64 ensures !CodeAt(Prior(n), w, m, maxErrors) {
      Shifted(Prior(s), gap, w, m, maxErrors);
    }
  }

  lemma Shifted(prior: Word, gap: Word, w: Word, m: nat, maxErrors: nat)
    requires 0 < m <= |w|
    ensures CodeAt(Tail(prior + gap), w, m, maxErrors) ==> CodeAt(prior, gap + w, |gap| + m, maxErrors)
  {
    hide IsCode;
    assert (gap + w)[..|gap| + m] == gap + w[..m];
    var all := prior + gap;
    assert prior + (gap + w[..m]) == all + w[..m];
    if |Tail(all)| + m >= 64 {
      assert Newest(Tail(all) + w[..m]) == Newest(all + w[..m]);
    }
  }
}
