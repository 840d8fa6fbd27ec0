/** The BR/EDR framer: find an access code in the bit stream, check its trailer, collect header and payload. */
module BredrFramer {
  import opened Bits
  import opened BredrScan
  import opened BredrSync

  const HEADER_BITS: nat := 54
  const PAYLOAD_BITS: nat := 2999
  const PAYLOAD_BYTES: nat := (PAYLOAD_BITS + 7) / 8
  const GIAC: nat := 0x9E8B33
  const LIAC: nat := 0x9E8B00

  datatype Status = Error | Seeking | Gathering | Packet

  /** A recognised access code; `last` is the last bit of its sync word. */
  datatype Detected = Detected(lap: Word, errors: nat, start: nat, last: bool)

  datatype Phase =
    | Searching
    | Trailer(code: Detected, got: Word)
    | Collecting(code: Detected, header: Word, payload: Word)

  datatype Framing = Framing(window: Word, seen: nat, total: nat, phase: Phase) {
    ghost predicate Valid() {
      && |window| == 64 && seen <= 64
      && match phase
         case Searching => true
         case Trailer(code, got) => |code.lap| == 24 && |got| < 4
         case Collecting(code, header, payload) =>
           && |code.lap| == 24 && |header| <= HEADER_BITS && |payload| < PAYLOAD_BITS
           && (|header| < HEADER_BITS ==> payload == [])
    }
  }

  datatype Outcome = Outcome(next: Framing, status: Status, frames: seq<Frame>)

  function Init(): (s: Framing)
    ensures s.Valid()
  {
    Framing(Zeros(64), 0, 0, Searching)
  }

  function IsInquiry(lap: Word): bool {
    lap == FromNat(GIAC, 24) || lap == FromNat(LIAC, 24)
  }

  /** 68 bits before the last one seen, in 64-bit unsigned arithmetic. */
  function StartBit(total: nat): nat {
    if total >= 68 then (total - 68) % 0x1_0000_0000_0000_0000 else total - 68 + 0x1_0000_0000_0000_0000
  }

  /** Four alternating bits, the first one the complement of the last sync bit. */
  function TrailerFor(last: bool): (t: Word)
    ensures |t| == 4
  {
    [!last, last, !last, last]
  }

  function FrameOf(code: Detected, hasHeader: bool, header: Word, payload: Word): Frame {
    Frame(code.start, code.lap, code.errors, hasHeader, header, payload)
  }

  // ---- one bit ----

  function SearchStep(s: Framing, b: bool, maxErrors: nat): (o: Outcome)
    requires |s.window| == 64
  {
    var w := s.window[1..] + [b];
    var seen := if s.seen < 64 then s.seen + 1 else s.seen;
    var n := Framing(w, seen, s.total + 1, Searching);
    if seen < 64 || !Matches(w, maxErrors) then Outcome(n, Seeking, []) else Detection(n)
  }

  /** The window of n is an access code. */
  function Detection(n: Framing): (o: Outcome)
    requires |n.window| == 64
  {
    var code := Detected(LapOf(n.window), Errors(n.window), StartBit(n.total), n.window[63]);
    if IsInquiry(code.lap) then Outcome(n, Packet, [FrameOf(code, false, [], [])])
    else Outcome(n.(phase := Trailer(code, [])), Gathering, [])
  }

  function TrailerStep(s: Framing, b: bool): (o: Outcome)
    requires s.phase.Trailer?
  {
    var n := s.(total := s.total + 1);
    var p := s.phase;
    var got := p.got + [b];
    if |got| < 4 then Outcome(n.(phase := p.(got := got)), Gathering, [])
    else if got != TrailerFor(p.code.last) then
      Outcome(n.(phase := Searching), Packet, [FrameOf(p.code, false, [], [])])
    else Outcome(n.(phase := Collecting(p.code, [], [])), Gathering, [])
  }

  /** A bit for which the payload buffer has no byte left gives the packet up. */
  function CollectStep(s: Framing, b: bool): (o: Outcome)
    requires s.phase.Collecting?
  {
    var n := s.(total := s.total + 1);
    var p := s.phase;
    if |p.header| >= HEADER_BITS && |p.payload| / 8 >= PAYLOAD_BYTES then
      Outcome(n.(phase := Searching), Error, [])
    else if |p.header| < HEADER_BITS then Outcome(n.(phase := p.(header := p.header + [b])), Gathering, [])
    else if |p.payload| + 1 < PAYLOAD_BITS then Outcome(n.(phase := p.(payload := p.payload + [b])), Gathering, [])
    else
      Outcome(n.(phase := Searching), Packet, [FrameOf(p.code, true, p.header, p.payload + [b])])
  }

  /** A bit is refused exactly when 54 header bits and 375 payload bytes are in. */
  lemma RefusedWhenFull(s: Framing, b: bool)
    requires s.phase.Collecting?
    ensures CollectStep(s, b).status == Error <==> |s.phase.header| >= 54 && |s.phase.payload| >= 8 * 375
  {
  }

  function Step(s: Framing, b: bool, maxErrors: nat): (o: Outcome)
    requires s.Valid()
    ensures o.next.Valid() && o.next.total == s.total + 1
    ensures o.status != Error
    ensures o.status == if o.frames != [] then Packet else if o.next.phase.Searching? then Seeking else Gathering
  {
    match s.phase
    case Searching => SearchStep(s, b, maxErrors)
    case Trailer(_, _) => TrailerStep(s, b)
    case Collecting(_, _, _) => CollectStep(s, b)
  }

  // ---- the decoder ----

  class Decoder {
    var window: Word
    var bitsSeen: nat
    var totalBitsSeen: nat
    var state: nat
    var drainCount: nat
    var trailerBits: Word
    var headerRaw: Word
    var airPayload: Word
    var bitsCollected: nat
    var bitsToCollect: nat
    var headerDecoded: bool
    var detected: Detected
    var lastFrame: Frame
    var packetReady: bool

    ghost predicate Draining()
      reads this
    {
      state == 1 && 1 <= drainCount <= 4 && |trailerBits| == 4 - drainCount && |detected.lap| == 24
    }

    /** The counters agree with what was collected; nothing bounds the payload yet. */
    ghost predicate Collected()
      reads this
    {
      && state == 2 && |detected.lap| == 24 && |headerRaw| <= HEADER_BITS
      && (headerDecoded <==> |headerRaw| == HEADER_BITS) && (!headerDecoded ==> airPayload == [])
      && bitsCollected == |headerRaw| + |airPayload|
      && (headerDecoded ==> bitsToCollect == HEADER_BITS + PAYLOAD_BITS)
    }

    ghost predicate Valid()
      reads this
    {
      && |window| == 64 && bitsSeen <= 64
      && (state == 0 || Draining() || (Collected() && |airPayload| < PAYLOAD_BITS))
    }

    ghost function CurrentPhase(): Phase
      reads this
    {
      if state == 0 then Searching
      else if state == 1 then Trailer(detected, trailerBits)
      else Collecting(detected, headerRaw, airPayload)
    }

    ghost function State(): (s: Framing)
      reads this
      ensures Valid() ==> s.Valid()
    {
      Framing(window, bitsSeen, totalBitsSeen, CurrentPhase())
    }

    constructor ()
      ensures Valid() && State() == Init() && !packetReady
    {
      window, bitsSeen, totalBitsSeen, state, drainCount := Zeros(64), 0, 0, 0, 0;
      trailerBits, headerRaw, airPayload, bitsCollected, bitsToCollect, headerDecoded := [], [], [], 0, 0, false;
      detected := Detected([], 0, 0, false);
      lastFrame, packetReady := Frame(0, [], 0, false, [], []), false;
    }

    method ResetCollection()
      modifies this`state, this`drainCount, this`trailerBits, this`headerRaw, this`airPayload, this`bitsCollected,
               this`bitsToCollect, this`headerDecoded, this`detected
      ensures state == 0
    {
      state, drainCount, trailerBits := 0, 0, [];
      headerRaw, airPayload, bitsCollected, bitsToCollect, headerDecoded := [], [], 0, 0, false;
      detected := Detected([], 0, 0, false);
    }

    /** Assemble the frame and go back to searching. */
    method FinishFrame(hasHeader: bool, header: Word, payload: Word)
      requires |window| == 64 && bitsSeen <= 64
      modifies this`state, this`drainCount, this`trailerBits, this`headerRaw, this`airPayload, this`bitsCollected,
               this`bitsToCollect, this`headerDecoded, this`detected, this`lastFrame, this`packetReady
      ensures Valid() && State() == Framing(window, bitsSeen, totalBitsSeen, Searching)
      ensures packetReady && lastFrame == FrameOf(old(detected), hasHeader, header, payload)
    {
      lastFrame := FrameOf(detected, hasHeader, header, payload);
      packetReady := true;
      ResetCollection();
    }

    /** Consume one bit.  The status is never Error; a frame is ready exactly when it is Packet. */
    method PushBit(bit: bool, maxErrors: nat) returns (status: Status)
      requires Valid()
      modifies this
      ensures Valid()
      ensures var o := Step(old(State()), bit, maxErrors);
              && State() == o.next && status == o.status
              && (status == Packet ==> packetReady && o.frames == [lastFrame])
              && (status != Packet ==> packetReady == old(packetReady) && lastFrame == old(lastFrame))
    {
      if state == 0 {
        status := PushSearching(bit, maxErrors);
      } else if state == 1 {
        status := PushTrailer(bit);
      } else {
        status := PushCollecting(bit);
      }
    }

    method PushSearching(bit: bool, maxErrors: nat) returns (status: Status)
      requires Valid() && state == 0
      modifies this
      ensures Valid()
      ensures var o := SearchStep(old(State()), bit, maxErrors);
              && State() == o.next && status == o.status
              && (status == Packet ==> packetReady && o.frames == [lastFrame])
              && (status != Packet ==> packetReady == old(packetReady) && lastFrame == old(lastFrame))
    {
      hide Matches, Detection, Framing.Valid;
      totalBitsSeen := totalBitsSeen + 1;
      window := window[1..] + [bit];
      if bitsSeen < 64 {
        bitsSeen := bitsSeen + 1;
      }
      if bitsSeen < 64 {
        return Seeking;
      }
      if !Matches(window, maxErrors) {
        return Seeking;
      }
      status := Detect();
    }

    /** The window holds an access code: an inquiry is reported at once, anything else is drained. */
    method Detect() returns (status: Status)
      requires |window| == 64 && bitsSeen == 64 && state == 0
      modifies this`detected, this`trailerBits, this`state, this`drainCount, this`lastFrame, this`packetReady
      ensures Valid()
      ensures var o := Detection(Framing(window, bitsSeen, totalBitsSeen, Searching));
              && State() == o.next && status == o.status
              && (status == Packet ==> packetReady && o.frames == [lastFrame])
              && (status != Packet ==> packetReady == old(packetReady) && lastFrame == old(lastFrame))
    {
      hide Errors, LapOf, IsInquiry, StartBit, Framing.Valid;
      detected := Detected(LapOf(window), Errors(window), StartBit(totalBitsSeen), window[63]);
      if IsInquiry(detected.lap) {
        lastFrame := FrameOf(detected, false, [], []);
        packetReady := true;
        return Packet;
      }
      trailerBits, state, drainCount := [], 1, 4;
      return Gathering;
    }

    method PushTrailer(bit: bool) returns (status: Status)
      requires Valid() && state == 1
      modifies this
      ensures Valid()
      ensures var o := TrailerStep(old(State()), bit);
              && State() == o.next && status == o.status
              && (status == Packet ==> packetReady && o.frames == [lastFrame])
              && (status != Packet ==> packetReady == old(packetReady) && lastFrame == old(lastFrame))
    {
      hide TrailerFor, FrameOf, Framing.Valid;
      totalBitsSeen := totalBitsSeen + 1;
      trailerBits, drainCount := trailerBits + [bit], drainCount - 1;
      if drainCount > 0 {
        return Gathering;
      }
      if trailerBits != TrailerFor(detected.last) {
        FinishFrame(false, [], []);
        return Packet;
      }
      StartCollecting();
      return Gathering;
    }

    method StartCollecting()
      requires |window| == 64 && bitsSeen <= 64 && |detected.lap| == 24
      modifies this`state, this`headerRaw, this`airPayload, this`bitsCollected, this`bitsToCollect, this`headerDecoded
      ensures Valid() && State() == Framing(window, bitsSeen, totalBitsSeen, Collecting(detected, [], []))
    {
      state, headerRaw, airPayload := 2, [], [];
      bitsCollected, bitsToCollect, headerDecoded := 0, 0, false;
    }

    /** One header bit, unless all 54 are in. */
    method PushHeaderBit(bit: bool) returns (ok: bool)
      modifies this`headerRaw, this`bitsCollected
      ensures ok == (old(bitsCollected) < HEADER_BITS)
      ensures headerRaw == if ok then old(headerRaw) + [bit] else old(headerRaw)
      ensures bitsCollected == if ok then old(bitsCollected) + 1 else old(bitsCollected)
    {
      if bitsCollected >= HEADER_BITS {
        return false;
      }
      headerRaw, bitsCollected := headerRaw + [bit], bitsCollected + 1;
      return true;
    }

    /** One payload bit, unless the buffer has no byte for it. */
    method PushAirPayloadBit(bit: bool) returns (ok: bool)
      modifies this`airPayload, this`bitsCollected
      ensures ok == (|old(airPayload)| / 8 < PAYLOAD_BYTES)
      ensures airPayload == if ok then old(airPayload) + [bit] else old(airPayload)
      ensures bitsCollected == if ok then old(bitsCollected) + 1 else old(bitsCollected)
    {
      if |airPayload| / 8 >= PAYLOAD_BYTES {
        return false;
      }
      airPayload, bitsCollected := airPayload + [bit], bitsCollected + 1;
      return true;
    }

    /** One bit into the header or, once it is complete, into the payload. */
    method StoreBit(bit: bool) returns (stored: bool)
      requires Collected()
      modifies this`headerRaw, this`airPayload, this`bitsCollected, this`bitsToCollect, this`headerDecoded
      ensures stored == (|old(headerRaw)| < 54 || |old(airPayload)| < 8 * 375)
      ensures stored ==> Collected()
      ensures stored && |old(headerRaw)| < HEADER_BITS ==>
                headerRaw == old(headerRaw) + [bit] && airPayload == old(airPayload)
      ensures stored && |old(headerRaw)| >= HEADER_BITS ==>
                headerRaw == old(headerRaw) && airPayload == old(airPayload) + [bit]
    {
      if headerDecoded {
        stored := PushAirPayloadBit(bit);
      } else {
        stored := PushHeaderBit(bit);
        if bitsCollected >= HEADER_BITS {
          bitsToCollect, headerDecoded := HEADER_BITS + PAYLOAD_BITS, true;
        }
      }
    }

    /** Both capacity guards are there, and are proved idle only in PushBit, from the bound on the payload. */
    method PushCollecting(bit: bool) returns (status: Status)
      requires |window| == 64 && bitsSeen <= 64 && Collected()
      modifies this
      ensures |window| == 64 && bitsSeen <= 64 && (state == 0 || Collected())
      ensures var o := CollectStep(old(State()), bit);
              && State() == o.next && status == o.status
              && (status == Packet ==> packetReady && o.frames == [lastFrame])
              && (status != Packet ==> packetReady == old(packetReady) && lastFrame == old(lastFrame))
    {
      hide FrameOf, Framing.Valid;
      totalBitsSeen := totalBitsSeen + 1;
      var stored := StoreBit(bit);
      if !stored {
        ResetCollection();
        return Error;
      }
      var target := if headerDecoded then bitsToCollect else HEADER_BITS + PAYLOAD_BITS;
      if bitsCollected < target {
        return Gathering;
      }
      FinishFrame(true, headerRaw, airPayload);
      return Packet;
    }

    /** Hand out the latest frame once. */
    method GetFrame() returns (ok: bool, out: Frame)
      modifies this`packetReady, this`lastFrame
      ensures ok == old(packetReady) && !packetReady
      ensures ok ==> out == old(lastFrame)
    {
      out := lastFrame;
      if !packetReady {
        return false, out;
      }
      lastFrame := Frame(0, [], 0, false, [], []);
      packetReady := false;
      return true, out;
    }
  }

  // ---- runs ----

  datatype History = History(now: Framing, frames: seq<Frame>)

  function Run(s: Framing, bits: Word, maxErrors: nat): (h: History)
    requires s.Valid()
    ensures h.now.Valid()
  {
    if |bits| == 0 then History(s, [])
    else
      var h := Run(s, bits[..|bits| - 1], maxErrors);
      var o := Step(h.now, bits[|bits| - 1], maxErrors);
      History(o.next, h.frames + o.frames)
  }

  lemma {:induction false} RunSplits(s: Framing, a: Word, b: Word, maxErrors: nat)
    requires s.Valid()
    ensures var h := Run(s, a, maxErrors);
            var k := Run(h.now, b, maxErrors);
            Run(s, a + b, maxErrors) == History(k.now, h.frames + k.frames)
  {
    hide Step, Framing.Valid;
    if |b| == 0 {
      assert a + b == a;
    } else {
      var init, last := b[..|b| - 1], b[|b| - 1];
      RunSplits(s, a, init, maxErrors);
      assert (a + b)[..|a + b| - 1] == a + init && (a + b)[|a + b| - 1] == last;
    }
  }

  ghost predicate WholeFrame(f: Frame, maxErrors: nat) {
    && |f.lap| == 24 && f.errors <= maxErrors
    && (if f.hasHeader then |f.header| == HEADER_BITS && |f.payload| == PAYLOAD_BITS else f.header == f.payload == [])
  }

  ghost predicate PhaseWithin(p: Phase, maxErrors: nat) {
    match p
    case Searching => true
    case Trailer(code, _) => |code.lap| == 24 && code.errors <= maxErrors
    case Collecting(code, _, _) => |code.lap| == 24 && code.errors <= maxErrors
  }

  ghost predicate AllWhole(frames: seq<Frame>, maxErrors: nat) {
    forall i :: 0 <= i < |frames| ==> WholeFrame(frames[i], maxErrors)
  }

  lemma StepWhole(s: Framing, b: bool, maxErrors: nat)
    requires s.Valid() && PhaseWithin(s.phase, maxErrors)
    ensures var o := Step(s, b, maxErrors);
            PhaseWithin(o.next.phase, maxErrors) && AllWhole(o.frames, maxErrors)
  {
    hide BarkerOk, Errors, LapOf, IsInquiry, StartBit, TrailerFor;
  }

  /** On any stream every frame is whole: a 24-bit LAP within the error tolerance, and either nothing more or
      exactly 54 header bits and 2999 payload bits. */
  lemma {:induction false} FramesAreWhole(bits: Word, maxErrors: nat)
    ensures var h := Run(Init(), bits, maxErrors);
            AllWhole(h.frames, maxErrors) && PhaseWithin(h.now.phase, maxErrors)
  {
    hide Step, WholeFrame;
    if |bits| > 0 {
      FramesAreWhole(bits[..|bits| - 1], maxErrors);
      StepWhole(Run(Init(), bits[..|bits| - 1], maxErrors).now, bits[|bits| - 1], maxErrors);
    }
  }

  // ---- the bits behind an access code ----

  lemma RunStep(s: Framing, bits: Word, b: bool, maxErrors: nat)
    requires s.Valid()
    ensures var h := Run(s, bits, maxErrors);
            var o := Step(h.now, b, maxErrors);
            Run(s, bits + [b], maxErrors) == History(o.next, h.frames + o.frames)
  {
    hide Step;
    assert (bits + [b])[..|bits|] == bits;
  }

  lemma RunNothing(s: Framing, bits: Word, maxErrors: nat)
    requires s.Valid() && |bits| == 0
    ensures bits == [] && Run(s, bits, maxErrors) == History(s, [])
  {
  }

  lemma TrailerRun(s: Framing, t: Word, maxErrors: nat)
    requires s.Valid() && s.phase.Trailer? && s.phase.got == [] && |t| == 4
    ensures var code := s.phase.code;
            Run(s, t, maxErrors) ==
              if t == TrailerFor(code.last) then
                History(Framing(s.window, s.seen, s.total + 4, Collecting(code, [], [])), [])
              else History(Framing(s.window, s.seen, s.total + 4, Searching), [FrameOf(code, false, [], [])])
  {
    hide TrailerFor, FrameOf;
    GotSoFar(s, t[..3], maxErrors);
    assert t == t[..3] + [t[3]];
  }

  lemma TrailerBit(s: Framing, b: bool, maxErrors: nat)
    requires s.Valid() && s.phase.Trailer? && |s.phase.got| < 3
    ensures Step(s, b, maxErrors)
         == Outcome(Framing(s.window, s.seen, s.total + 1, Trailer(s.phase.code, s.phase.got + [b])), Gathering, [])
  {
  }

  lemma {:induction false} GotSoFar(s: Framing, t: Word, maxErrors: nat)
    requires s.Valid() && s.phase.Trailer? && s.phase.got == [] && |t| < 4
    ensures Run(s, t, maxErrors)
         == History(Framing(s.window, s.seen, s.total + |t|, Trailer(s.phase.code, t)), [])
  {
    hide Step, Run;
    if |t| == 0 {
      RunNothing(s, t, maxErrors);
    } else {
      var init, b := t[..|t| - 1], t[|t| - 1];
      GotSoFar(s, init, maxErrors);
      RunStep(s, init, b, maxErrors);
      TrailerBit(Run(s, init, maxErrors).now, b, maxErrors);
      assert t == init + [b];
    }
  }

  lemma HeaderBit(s: Framing, b: bool, maxErrors: nat)
    requires s.Valid() && s.phase.Collecting? && |s.phase.header| < HEADER_BITS
    ensures Step(s, b, maxErrors)
         == Outcome(Framing(s.window, s.seen, s.total + 1, Collecting(s.phase.code, s.phase.header + [b], [])),
                    Gathering, [])
  {
  }

  lemma {:induction false} HeaderRun(s: Framing, h: Word, maxErrors: nat)
    requires s.Valid() && s.phase.Collecting? && s.phase.header == [] && |h| <= HEADER_BITS
    ensures Run(s, h, maxErrors)
         == History(Framing(s.window, s.seen, s.total + |h|, Collecting(s.phase.code, h, [])), [])
  {
    hide Step, Run;
    if |h| == 0 {
      RunNothing(s, h, maxErrors);
    } else {
      var init, b := h[..|h| - 1], h[|h| - 1];
      HeaderRun(s, init, maxErrors);
      RunStep(s, init, b, maxErrors);
      HeaderBit(Run(s, init, maxErrors).now, b, maxErrors);
      assert h == init + [b];
    }
  }

  lemma PayloadBit(s: Framing, b: bool, maxErrors: nat)
    requires s.Valid() && s.phase.Collecting? && |s.phase.header| == HEADER_BITS
    ensures var p, n := s.phase, s.(total := s.total + 1);
            Step(s, b, maxErrors) ==
              if |p.payload| + 1 < PAYLOAD_BITS then
                Outcome(n.(phase := Collecting(p.code, p.header, p.payload + [b])), Gathering, [])
              else Outcome(n.(phase := Searching), Packet, [FrameOf(p.code, true, p.header, p.payload + [b])])
  {
  }

  lemma {:induction false} PayloadRun(s: Framing, p: Word, maxErrors: nat)
    requires s.Valid() && s.phase.Collecting? && |s.phase.header| == HEADER_BITS && s.phase.payload == []
    requires |p| < PAYLOAD_BITS
    ensures Run(s, p, maxErrors)
         == History(Framing(s.window, s.seen, s.total + |p|, Collecting(s.phase.code, s.phase.header, p)), [])
  {
    hide Step, Run;
    if |p| == 0 {
      RunNothing(s, p, maxErrors);
    } else {
      var init, b := p[..|p| - 1], p[|p| - 1];
      PayloadRun(s, init, maxErrors);
      RunStep(s, init, b, maxErrors);
      PayloadBit(Run(s, init, maxErrors).now, b, maxErrors);
      assert p == init + [b];
    }
  }

  /** An access code, then fewer bits than a packet with header and payload has: nothing is reported. */
  lemma PacketPart(s: Framing, t: Word, maxErrors: nat)
    requires s.Valid() && s.phase.Trailer? && s.phase.got == [] && |t| < 4 + HEADER_BITS + PAYLOAD_BITS
    requires |t| >= 4 ==> t[..4] == TrailerFor(s.phase.code.last)
    ensures var h := Run(s, t, maxErrors); h.frames == [] && !h.now.phase.Searching?
  {
    hide Step, Run, TrailerFor;
    if |t| < 4 {
      GotSoFar(s, t, maxErrors);
    } else {
      PacketBegun(s, t, maxErrors);
    }
  }

  /** The state inside a packet's header or payload. */
  lemma PacketBegun(s: Framing, t: Word, maxErrors: nat)
    requires s.Valid() && s.phase.Trailer? && s.phase.got == [] && 4 <= |t| < 4 + HEADER_BITS + PAYLOAD_BITS
    requires t[..4] == TrailerFor(s.phase.code.last)
    ensures var k := if |t| < 4 + HEADER_BITS then |t| else 4 + HEADER_BITS;
            Run(s, t, maxErrors)
            == History(Framing(s.window, s.seen, s.total + |t|, Collecting(s.phase.code, t[4..k], t[k..])), [])
  {
    hide Step, Run, TrailerFor;
    var k := if |t| < 4 + HEADER_BITS then |t| else 4 + HEADER_BITS;
    TrailerRun(s, t[..4], maxErrors);
    var a := Run(s, t[..4], maxErrors).now;
    HeaderRun(a, t[4..k], maxErrors);
    RunSplits(s, t[..4], t[4..k], maxErrors);
    assert t[..4] + t[4..k] == t[..k] && t[..k] + t[k..] == t;
    if |t| >= 4 + HEADER_BITS {
      PayloadRun(Run(a, t[4..k], maxErrors).now, t[k..], maxErrors);
      RunSplits(s, t[..k], t[k..], maxErrors);
    } else {
      assert t[..k] == t;
    }
  }

  /** A whole packet: its frame comes with the last bit. */
  lemma PacketRun(s: Framing, t: Word, maxErrors: nat)
    requires s.Valid() && s.phase.Trailer? && s.phase.got == [] && |t| == 4 + HEADER_BITS + PAYLOAD_BITS
    requires t[..4] == TrailerFor(s.phase.code.last)
    ensures Run(s, t, maxErrors)
         == History(Framing(s.window, s.seen, s.total + |t|, Searching),
                    [FrameOf(s.phase.code, true, t[4..4 + HEADER_BITS], t[4 + HEADER_BITS..])])
  {
    hide Step, Run, TrailerFor, FrameOf;
    var n := |t| - 1;
    var most, b := t[..n], t[n];
    assert t == most + [b] && t[4 + HEADER_BITS..] == most[4 + HEADER_BITS..] + [b] && most[..4] == t[..4];
    PacketBegun(s, most, maxErrors);
    RunStep(s, most, b, maxErrors);
    PayloadBit(Run(s, most, maxErrors).now, b, maxErrors);
    assert most[4..4 + HEADER_BITS] == t[4..4 + HEADER_BITS];
  }
}
