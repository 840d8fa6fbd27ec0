/** The push-bit BLE framer: a candidate buffer that is filled one bit at a time, rejected and
    rescanned in place, and proved to deliver exactly what the offline scanner of BleScan finds. */
module BleFramer {
  import opened Bits
  import opened BleScan
  import BleWhitening

  const FRAME_QUEUE: nat := 8

  datatype State = Search | CollectAa | CollectPdu

  datatype Status = Searching | Collecting | ValidPacket | Error

  /** The queue keeps the first eight frames and discards the others. */
  function Capped(q: seq<Frame>): (r: seq<Frame>)
    ensures |r| <= FRAME_QUEUE
  {
    if |q| <= FRAME_QUEUE then q else q[..FRAME_QUEUE]
  }

  class Decoder {
    const channel: nat
    var state: State
    var accessAddress: Word
    var detectedPreamble: Word
    const cand: array<bool>
    var candBits: nat
    var isDataCandidate: bool
    var headerDecoded: bool
    var pduTargetBits: nat
    var pending: seq<Frame>
    ghost var pushed: Word   // every bit pushed since construction

    /** The buffered bits. */
    ghost function Buffer(): (b: Word)
      requires candBits <= cand.Length
      reads this, cand
    {
      cand[..candBits]
    }

    /** The control fields agree with the buffered bits; holds at every head of the drain loop. */
    ghost predicate Coherent()
      reads this, cand
    {
      && cand.Length == CANDIDATE_MAX_BITS
      && candBits <= cand.Length
      && |pending| <= FRAME_QUEUE
      && match state {
           case Search => candBits <= PREAMBLE_BITS && !headerDecoded
           case CollectAa => InCandidate() && !headerDecoded
           case CollectPdu => InCandidate() && InPdu() && (headerDecoded ==> HeaderTaken())
         }
    }

    ghost predicate InCandidate()
      requires candBits <= cand.Length
      reads this, cand
    {
      PreambleAt(Buffer(), 0) && detectedPreamble == Buffer()[..PREAMBLE_BITS]
    }

    ghost predicate InPdu()
      requires candBits <= cand.Length
      reads this, cand
    {
      && AA_END_BITS <= candBits
      && accessAddress == Buffer()[PREAMBLE_BITS..AA_END_BITS]
      && isDataCandidate == IsData(Buffer())
      && AddressAccepted(Buffer())
    }

    ghost predicate HeaderTaken()
      requires candBits <= cand.Length
      reads this, cand
    {
      && AA_END_BITS + HEADER_BITS <= candBits
      && HeaderAccepted(channel, Buffer())
      && pduTargetBits == TargetBits(Header(channel, Buffer()))
    }

    /** Between calls: the buffer is the tail the scanner leaves undecided on all bits pushed, and
        the control fields are the ones that buffer calls for. */
    ghost predicate Valid()
      reads this, cand
    {
      && Coherent()
      && Buffer() == Scan(channel, pushed).rest
      && Judge(channel, Buffer()).Wait?
      && (state == Search <==> candBits < PREAMBLE_BITS)
      && (state == CollectAa <==> PREAMBLE_BITS <= candBits < AA_END_BITS)
      && (headerDecoded <==> AA_END_BITS + HEADER_BITS <= candBits)
    }

    constructor (channel: nat)
      ensures Valid() && fresh(cand)
      ensures this.channel == channel && pushed == [] && pending == []
    {
      this.channel := channel;
      state, headerDecoded, isDataCandidate := Search, false, false;
      cand := new bool[CANDIDATE_MAX_BITS];
      candBits, pduTargetBits := 0, 0;
      accessAddress, detectedPreamble, pending, pushed := [], [], [], [];
    }

    /** Discard the first k buffered bits. */
    method ShiftBits(k: nat)
      requires candBits <= cand.Length
      modifies this`candBits, cand
      ensures candBits <= cand.Length
      ensures Buffer() == if k >= old(candBits) then [] else old(Buffer())[k..]
    {
      if k == 0 {
        return;
      }
      if k >= candBits {
        candBits := 0;
        forall i | 0 <= i < cand.Length { cand[i] := false; }
        return;
      }
      ghost var was := cand[..];
      var remaining := candBits - k;
      var i := 0;
      while i < remaining
        invariant i <= remaining && candBits == old(candBits)
        invariant forall j :: 0 <= j < i ==> cand[j] == was[j + k]
        invariant forall j :: i <= j < cand.Length ==> cand[j] == was[j]
      {
        cand[i] := cand[i + k];
        i := i + 1;
      }
      while i < candBits
        invariant remaining <= i <= candBits == old(candBits)
        invariant forall j :: 0 <= j < remaining ==> cand[j] == was[j + k]
      {
        cand[i] := false;
        i := i + 1;
      }
      MovedDown(was, cand[..], k, remaining);
      candBits := remaining;
    }

    /** First position >= from that carries a whole preamble, or -1. */
    method FindNextPreamble(from: nat) returns (k: int)
      requires candBits <= cand.Length
      ensures k >= 0 ==> from <= k && PreambleAt(Buffer(), k)
      ensures k >= 0 ==> forall i: nat :: from <= i < k ==> !PreambleAt(Buffer(), i)
      ensures k < 0 ==> forall i: nat :: from <= i ==> !PreambleAt(Buffer(), i)
    {
      if candBits < PREAMBLE_BITS {
        return -1;
      }
      var i := from;
      while i + PREAMBLE_BITS <= candBits
        invariant from <= i
        invariant forall j: nat :: from <= j < i ==> !PreambleAt(Buffer(), j)
      {
        var w := cand[i..i + PREAMBLE_BITS];
        assert w == Buffer()[i..i + PREAMBLE_BITS];
        if IsPreamble(w) {
          return i;
        }
        i := i + 1;
      }
      return -1;
    }

    /** Back to SEARCH, keeping at most the seven newest bits. */
    method RestartSearch()
      requires candBits <= cand.Length == CANDIDATE_MAX_BITS && |pending| <= FRAME_QUEUE
      modifies this`candBits, this`state, this`headerDecoded, this`pduTargetBits, cand
      ensures Coherent() && state == Search
      ensures Buffer() == if old(candBits) > 7 then old(Buffer())[old(candBits) - 7..] else old(Buffer())
    {
      var keep := if candBits > PREAMBLE_BITS - 1 then PREAMBLE_BITS - 1 else candBits;
      ShiftBits(candBits - keep);
      state, headerDecoded, pduTargetBits := Search, false, 0;
    }

    /** Resume at position k of the buffer (or search on if there is none). */
    method ResumeAt(k: int)
      requires candBits <= cand.Length == CANDIDATE_MAX_BITS && |pending| <= FRAME_QUEUE
      requires k >= 0 ==> PreambleAt(Buffer(), k)
      requires k < 0 ==> candBits < PREAMBLE_BITS || forall i: nat :: 1 <= i ==> !PreambleAt(Buffer(), i)
      modifies this`candBits, this`state, this`headerDecoded, this`pduTargetBits, this`detectedPreamble, cand
      ensures Coherent() && state != CollectPdu
      ensures k >= 0 ==> Buffer() == old(Buffer())[k..]
      ensures k < 0 && old(candBits) > 7 ==> Buffer() == old(Buffer())[old(candBits) - 7..]
      ensures k < 0 && old(candBits) <= 7 ==> Buffer() == old(Buffer())
      ensures state == Search ==> candBits < PREAMBLE_BITS
    {
      if k < 0 {
        RestartSearch();
        return;
      }
      ShiftBits(k);
      assert Buffer()[..PREAMBLE_BITS] == old(Buffer())[k..k + PREAMBLE_BITS];
      assert Buffer()[0..PREAMBLE_BITS] == Buffer()[..PREAMBLE_BITS] == cand[..PREAMBLE_BITS];
      detectedPreamble := cand[..PREAMBLE_BITS];
      state, headerDecoded, pduTargetBits := CollectAa, false, 0;
    }

    /** The candidate is no packet: give up only the bits before the next preamble inside it. */
    method RejectAndRescan()
      requires AA_END_BITS <= candBits <= cand.Length == CANDIDATE_MAX_BITS && |pending| <= FRAME_QUEUE
      modifies this`candBits, this`state, this`headerDecoded, this`pduTargetBits, this`detectedPreamble, cand
      ensures Coherent() && state != CollectPdu && (state == Search ==> candBits < PREAMBLE_BITS)
      ensures candBits < old(candBits)
      ensures Scan(channel, Buffer()) == Scan(channel, old(Buffer())[1..])
    {
      ghost var b := Buffer();
      var k := FindNextPreamble(1);
      ResumeAt(k);
      ScanSkipsFrom(channel, b, 1, if k < 0 then |b| - 7 else k);
    }

    /** The candidate was emitted whole: drop it and find the next preamble behind it. */
    method FinishCandidate()
      requires AA_END_BITS + pduTargetBits <= candBits <= cand.Length == CANDIDATE_MAX_BITS
      requires |pending| <= FRAME_QUEUE
      modifies this`candBits, this`state, this`headerDecoded, this`pduTargetBits, this`detectedPreamble, cand
      ensures Coherent() && state != CollectPdu && (state == Search ==> candBits < PREAMBLE_BITS)
      ensures candBits < old(candBits)
      ensures Scan(channel, Buffer()) == Scan(channel, old(Buffer())[AA_END_BITS + old(pduTargetBits)..])
    {
      ShiftBits(AA_END_BITS + pduTargetBits);
      ghost var b := Buffer();
      assert b == old(Buffer())[AA_END_BITS + old(pduTargetBits)..];
      var k := FindNextPreamble(0);
      ResumeAt(k);
      ScanSkips(channel, b, if k >= 0 then k else if |b| > 7 then |b| - 7 else 0);
      assert b[0..] == b;
    }

    /** The longest run of equal bits in the access address. */
    method MaxRun(aa: Word) returns (best: nat)
      requires |aa| == 32
      ensures exists from: nat :: RunAt(aa, from, best)
      ensures NoRun(aa, best + 1, 32)
    {
      best := 1;
      var cur, i := 1, 1;
      assert RunAt(aa, 0, 1);
      while i < 32
        invariant 1 <= i <= 32 && 1 <= cur <= best && cur <= i
        invariant IsRun(aa, i - cur, i)
        invariant cur < i ==> aa[i - cur - 1] != aa[i - cur]
        invariant exists from: nat :: RunAt(aa, from, best)
        invariant NoRun(aa, best + 1, i)
      {
        ghost var was := best;
        if aa[i] == aa[i - 1] {
          cur := cur + 1;
          if cur > best {
            best := cur;
          }
          assert RunAt(aa, i + 1 - cur, cur);
        } else {
          cur := 1;
        }
        NoRunStep(aa, was + 1, best + 1, i, cur);
        i := i + 1;
      }
    }

    method DataAaPlausible(aa: Word) returns (ok: bool)
      requires |aa| == 32
      ensures ok == !HasLongRun(aa)
    {
      if ToNat(aa) == 0 || ToNat(aa) == 0xFFFF_FFFF {
        ExtremeAddressIsARun(aa);
        return false;
      }
      var best := MaxRun(aa);
      if best > 6 {
        ghost var from: nat :| RunAt(aa, from, best);
        assert RunAt(aa, from, 7);
        return false;
      }
      forall from: nat ensures !RunAt(aa, from, 7) {
        assert RunAt(aa, from, 7) ==> RunAt(aa, from, best + 1);
      }
      return true;
    }

    /** The access address is in: keep the candidate, or reject it and rescan. */
    method Classify() returns (kept: bool)
      requires Coherent() && state == CollectAa && AA_END_BITS <= candBits
      modifies this`candBits, this`state, this`headerDecoded, this`pduTargetBits, this`detectedPreamble,
               this`accessAddress, this`isDataCandidate, cand
      ensures Coherent()
      ensures kept ==> state == CollectPdu && Buffer() == old(Buffer())
      ensures !kept ==> state != CollectPdu && candBits < old(candBits)
      ensures Scan(channel, Buffer()) == Scan(channel, old(Buffer()))
    {
      hide Judge, Scan;
      ghost var b := Buffer();
      accessAddress := cand[PREAMBLE_BITS..AA_END_BITS];
      assert accessAddress == b[PREAMBLE_BITS..AA_END_BITS];
      if !PreambleMatchesAa(detectedPreamble, accessAddress) {
        AddressRejects(channel, b);
        RejectAndRescan();
        return false;
      }
      isDataCandidate := ToNat(accessAddress) != ADVERTISING_AA;
      if isDataCandidate {
        var plausible := DataAaPlausible(accessAddress);
        if !plausible {
          AddressRejects(channel, b);
          RejectAndRescan();
          return false;
        }
      }
      state := CollectPdu;
      return true;
    }

    /** Queue the completed candidate. */
    method EmitFrame()
      requires Coherent() && state == CollectPdu && headerDecoded
      requires AA_END_BITS + pduTargetBits <= candBits
      modifies this`pending
      ensures pending == Capped(old(pending) + [CandidateFrame(Buffer(), pduTargetBits)])
    {
      hide AddressAccepted, HeaderAccepted, Header, TargetBits;
      var raw := cand[AA_END_BITS..AA_END_BITS + pduTargetBits];
      assert raw == Buffer()[AA_END_BITS..AA_END_BITS + pduTargetBits];
      var frame := if isDataCandidate
        then Frame(Data, detectedPreamble, accessAddress, 0, false, raw, pduTargetBits / 8)
        else Frame(Advertising, detectedPreamble, accessAddress, CRC_INIT_ADV, false, raw, pduTargetBits / 8);
      assert frame == CandidateFrame(Buffer(), pduTargetBits);
      if |pending| < FRAME_QUEUE {
        pending := pending + [frame];
      }
    }

    /** A preamble may complete on the newest bit; otherwise the oldest bit goes. */
    method SearchStep() returns (found: bool)
      requires Coherent() && state == Search && PREAMBLE_BITS <= candBits
      modifies this`candBits, this`state, this`detectedPreamble, cand
      ensures Coherent() && Scan(channel, Buffer()) == Scan(channel, old(Buffer()))
      ensures found ==> state == CollectAa && candBits == old(candBits)
      ensures !found ==> state == Search && candBits < PREAMBLE_BITS
    {
      ghost var b := Buffer();
      var w := cand[candBits - PREAMBLE_BITS..candBits];
      assert w == b == b[0..PREAMBLE_BITS] == b[..PREAMBLE_BITS];
      if IsPreamble(w) {
        ShiftBits(candBits - PREAMBLE_BITS);
        assert Buffer() == b;
        detectedPreamble, state := w, CollectAa;
        return true;
      }
      ShiftBits(1);
      return false;
    }

    /** Decode the header of the candidate; false when it is impossible and was rescanned. */
    method TakeHeader() returns (taken: bool)
      requires Coherent() && state == CollectPdu && !headerDecoded && AA_END_BITS + HEADER_BITS <= candBits
      modifies this`candBits, this`state, this`headerDecoded, this`pduTargetBits, this`detectedPreamble, cand
      ensures Coherent() && Scan(channel, Buffer()) == Scan(channel, old(Buffer()))
      ensures taken ==> state == CollectPdu && headerDecoded && Buffer() == old(Buffer())
      ensures !taken ==> state != CollectPdu && candBits < old(candBits)
      ensures state == Search ==> candBits < PREAMBLE_BITS
    {
      hide Judge, Scan, AddressAccepted, TargetBits, BleWhitening.Dewhitened;
      ghost var b := Buffer();
      var header := new bool[HEADER_BITS](i requires 0 <= i < HEADER_BITS reads cand, this
        requires AA_END_BITS + HEADER_BITS <= candBits <= cand.Length => cand[AA_END_BITS + i]);
      assert header[..] == b[AA_END_BITS..AA_END_BITS + HEADER_BITS] == header[..16];
      BleWhitening.Dewhiten(header, 2, channel);
      assert header[..] == Header(channel, b);
      if isDataCandidate && !DataHeaderPlausible(header[..]) {
        HeaderRejects(channel, b);
        RejectAndRescan();
        return false;
      }
      pduTargetBits, headerDecoded := TargetBits(header[..]), true;
      return true;
    }

    /** The candidate is complete: emit it, and consume it or step over it. */
    method CompleteCandidate()
      requires Coherent() && state == CollectPdu && headerDecoded
      requires AA_END_BITS + pduTargetBits <= candBits
      modifies this`candBits, this`state, this`headerDecoded, this`pduTargetBits, this`detectedPreamble,
               this`pending, cand
      ensures Coherent() && state != CollectPdu && candBits < old(candBits)
      ensures state == Search ==> candBits < PREAMBLE_BITS
      ensures var v := Judge(channel, old(Buffer()));
              v.Accept? && pending == Capped(old(pending) + [v.frame])
              && Scan(channel, Buffer()) == Scan(channel, old(Buffer())[v.advance..])
    {
      hide Judge, Scan, AddressAccepted, HeaderAccepted, Header, TargetBits, Capped;
      CompleteAccepts(channel, Buffer());
      EmitFrame();
      if !isDataCandidate {
        FinishCandidate();
      } else {
        RejectAndRescan();
      }
    }

    /** The state machine is waiting for bits. */
    ghost predicate Settled()
      reads this, cand
    {
      && Coherent()
      && (state == Search ==> candBits < PREAMBLE_BITS)
      && (state == CollectAa ==> candBits < AA_END_BITS)
      && (state == CollectPdu && !headerDecoded ==> candBits < AA_END_BITS + HEADER_BITS)
      && (state == CollectPdu && headerDecoded ==> candBits < AA_END_BITS + pduTargetBits)
    }

    /** ... exactly when the scanner is. */
    lemma SettledWaits()
      requires Settled()
      ensures Judge(channel, Buffer()).Wait?
      ensures Scan(channel, Buffer()) == Scanned([], Buffer())
    {
      assert state != Search ==> Buffer()[0..PREAMBLE_BITS] == Buffer()[..PREAMBLE_BITS];
    }

    /** One turn of the drain loop in COLLECT_PDU: decode the header if it is in, then emit the
        candidate if it is complete.  `waiting` says that the loop must stop. */
    method PduStep() returns (waiting: bool, ghost found: seq<Frame>)
      requires Coherent() && state == CollectPdu
      modifies this`candBits, this`state, this`headerDecoded, this`pduTargetBits, this`detectedPreamble,
               this`pending, cand
      ensures Coherent() && (waiting ==> Settled())
      ensures !waiting ==> candBits < old(candBits)
      ensures Scan(channel, old(Buffer())) == Prepend(found, Scan(channel, Buffer()))
      ensures pending == Capped(old(pending) + found)
    {
      hide Judge, Scan, AddressAccepted, HeaderAccepted, Header, Capped;
      ghost var b := Buffer();
      found := [];
      NothingFound(pending, Scan(channel, b));
      if !headerDecoded {
        if candBits - AA_END_BITS < HEADER_BITS {
          return true, [];
        }
        var taken := TakeHeader();
        if !taken {
          return false, [];
        }
      }
      if candBits - AA_END_BITS < pduTargetBits {
        return true, [];
      }
      CompleteCandidate();
      ScanAccepts(channel, b);
      return isDataCandidate && state == Search, [Judge(channel, b).frame];
    }

    /** Advance the state machine until more bits are needed. */
    method Drain() returns (status: Status)
      requires Coherent()
      modifies this`candBits, this`state, this`headerDecoded, this`pduTargetBits, this`detectedPreamble,
               this`accessAddress, this`isDataCandidate, this`pending, cand
      ensures Settled() && Judge(channel, Buffer()).Wait?
      ensures Buffer() == Scan(channel, old(Buffer())).rest
      ensures pending == Capped(old(pending) + Scan(channel, old(Buffer())).frames)
      ensures status == if state == Search then Searching else Collecting
    {
      hide Judge, Scan, Capped, Prepend;
      ghost var all, queued := Scan(channel, Buffer()), pending;
      ghost var done: seq<Frame> := [];
      NothingFound(pending, all);
      var waiting := false;
      while !waiting
        invariant Coherent() && (waiting ==> Settled())
        invariant all == Prepend(done, Scan(channel, Buffer()))
        invariant pending == Capped(queued + done)
        decreases !waiting, candBits, if state == Search then 2 else if state == CollectAa then 1 else 0
      {
        if state == Search {
          if candBits < PREAMBLE_BITS {
            waiting := true;
          } else {
            var found := SearchStep();
            waiting := !found;
          }
        } else if state == CollectAa {
          if candBits < AA_END_BITS {
            waiting := true;
          } else {
            var kept := Classify();
          }
        } else {
          ghost var found: seq<Frame>;
          waiting, found := PduStep();
          FoundMore(queued, done, found, Scan(channel, Buffer()));
          done := done + found;
        }
      }
      SettledWaits();
      FoundAll(done, Buffer());
      status := if state == Search then Searching else Collecting;
    }

    /** Between calls the buffer is the last candBits bits pushed, fewer than 2120. */
    lemma BufferIsNewest()
      requires Valid()
      ensures candBits <= |pushed| && candBits < 2120 && Buffer() == pushed[|pushed| - candBits..]
    {
      RestIsSuffix(channel, pushed);
      WaitIsBounded(channel, Buffer());
    }

    method AppendBit(bit: bool)
      requires Coherent() && (state == Search ==> candBits < PREAMBLE_BITS) && candBits < CANDIDATE_MAX_BITS
      modifies this`candBits, cand
      ensures Coherent()
      ensures Buffer() == old(Buffer()) + [bit]
    {
      ghost var b := Buffer();
      PrefixesUnderAppend(b, bit);
      cand[candBits] := bit;
      candBits := candBits + 1;
      assert Buffer() == b + [bit];
    }

    /** One bit into whatever is buffered; a full buffer gives its candidate up. */
    method BufferBit(bit: bool) returns (status: Status)
      requires Coherent() && (state == Search ==> candBits < PREAMBLE_BITS)
      modifies this, cand
      ensures Coherent() && pushed == old(pushed)
      ensures if old(candBits) >= 2128 then
                status == Error && state == Search && pending == old(pending)
                && Buffer() == old(Buffer())[2121..]
              else
                var r := Scan(channel, old(Buffer()) + [bit]);
                && Settled() && Judge(channel, Buffer()).Wait?
                && Buffer() == r.rest && pending == Capped(old(pending) + r.frames)
                && status == if pending != [] then ValidPacket
                             else if state == Search then Searching else Collecting
    {
      hide Judge, Scan, AddressAccepted, HeaderAccepted, Header, Capped;
      if candBits >= CANDIDATE_MAX_BITS {
        RestartSearch();
        return Error;
      }
      AppendBit(bit);
      status := Drain();
      if pending != [] {
        status := ValidPacket;
      }
    }

    /** Push one demodulated bit.  The frames queued by the call are those the scanner finds on the
        longer stream and not yet on the shorter one; the buffer is never full, so no error occurs. */
    method PushBit(bit: bool) returns (status: Status)
      requires Valid()
      modifies this, cand
      ensures Valid()
      ensures pushed == old(pushed) + [bit]
      ensures Scan(channel, pushed).frames == Scan(channel, old(pushed)).frames + NewFrames(channel, old(pushed), bit)
      ensures pending == Capped(old(pending) + NewFrames(channel, old(pushed), bit))
      ensures status == if pending != [] then ValidPacket
                        else if candBits < PREAMBLE_BITS then Searching else Collecting
    {
      hide Judge, Scan, AddressAccepted, HeaderAccepted, Header, Capped;
      WaitIsBounded(channel, Buffer());
      ScanExtends(channel, pushed, [bit]);
      status := BufferBit(bit);
      pushed := pushed + [bit];
    }

    /** Take the oldest queued frame. */
    method GetFrame() returns (ok: bool, frame: Frame)
      requires Valid()
      modifies this`pending
      ensures Valid()
      ensures ok == (old(pending) != [])
      ensures ok ==> old(pending) == [frame] + pending
      ensures !ok ==> pending == []
    {
      if pending == [] {
        return false, Frame(Advertising, [], [], 0, false, [], 0);
      }
      frame := pending[0];
      pending := pending[1..];
      return true, frame;
    }
  }

  lemma MovedDown(was: Word, now: Word, k: nat, n: nat)
    requires k + n <= |was| == |now| && forall j :: 0 <= j < n ==> now[j] == was[j + k]
    ensures now[..n] == was[..k + n][k..]
  {
  }

  /** The frames that one more bit completes. */
  ghost function NewFrames(channel: nat, s: Word, bit: bool): (f: seq<Frame>) {
    Scan(channel, Scan(channel, s).rest + [bit]).frames
  }

  function Prepend(frames: seq<Frame>, r: Scanned): (p: Scanned) {
    Scanned(frames + r.frames, r.rest)
  }

  lemma ScanAccepts(channel: nat, b: Word)
    requires Judge(channel, b).Accept?
    ensures var v := Judge(channel, b);
            Scan(channel, b) == Prepend([v.frame], Scan(channel, b[v.advance..]))
  {
  }

  lemma NothingFound(q: seq<Frame>, r: Scanned)
    ensures |q| <= FRAME_QUEUE ==> Capped(q + []) == q
    ensures Prepend([], r) == r
  {
    assert q + [] == q && [] + r.frames == r.frames;
  }

  lemma FoundAll(done: seq<Frame>, rest: Word)
    ensures Prepend(done, Scanned([], rest)) == Scanned(done, rest)
  {
    assert done + [] == done;
  }

  lemma FoundMore(q: seq<Frame>, done: seq<Frame>, more: seq<Frame>, r: Scanned)
    ensures Prepend(done, Prepend(more, r)) == Prepend(done + more, r)
    ensures Capped(Capped(q + done) + more) == Capped(q + (done + more))
  {
    assert done + (more + r.frames) == (done + more) + r.frames;
    assert q + (done + more) == (q + done) + more;
  }

  /** The fields of a candidate do not move when a bit is appended. */
  lemma PrefixesUnderAppend(b: Word, bit: bool)
    ensures var c := b + [bit];
            && (PREAMBLE_BITS <= |b| ==>
                  c[..PREAMBLE_BITS] == b[..PREAMBLE_BITS] && c[0..PREAMBLE_BITS] == b[0..PREAMBLE_BITS])
            && (AA_END_BITS <= |b| ==> c[PREAMBLE_BITS..AA_END_BITS] == b[PREAMBLE_BITS..AA_END_BITS])
            && (AA_END_BITS + HEADER_BITS <= |b| ==>
                  c[AA_END_BITS..AA_END_BITS + HEADER_BITS] == b[AA_END_BITS..AA_END_BITS + HEADER_BITS])
  {
  }

  lemma AddressRejects(channel: nat, b: Word)
    requires AA_END_BITS <= |b| && !AddressAccepted(b)
    ensures Scan(channel, b) == Scan(channel, b[1..])
  {
    hide IsPreamble, AddressAccepted;
  }

  lemma HeaderRejects(channel: nat, b: Word)
    requires AA_END_BITS + HEADER_BITS <= |b| && !HeaderAccepted(channel, b)
    ensures Scan(channel, b) == Scan(channel, b[1..])
  {
    hide IsPreamble, AddressAccepted, HeaderAccepted;
  }

  lemma CompleteAccepts(channel: nat, b: Word)
    requires PreambleAt(b, 0) && AA_END_BITS + HEADER_BITS <= |b|
    requires AddressAccepted(b) && HeaderAccepted(channel, b)
    requires AA_END_BITS + TargetBits(Header(channel, b)) <= |b|
    ensures var target := TargetBits(Header(channel, b));
            Judge(channel, b) ==
            Accept(CandidateFrame(b, target), if IsData(b) then 1 else AA_END_BITS + target)
  {
    hide AddressAccepted, HeaderAccepted, Header, TargetBits, CandidateFrame, IsData, IsPreamble;
    assert b[0..PREAMBLE_BITS] == b[..PREAMBLE_BITS];
  }

  /** No run of n bits lies within the first `upto` bits. */
  ghost predicate NoRun(w: Word, n: nat, upto: nat) {
    forall from: nat :: from + n <= upto ==> !RunAt(w, from, n)
  }

  /** One more bit: the run ending at i has exactly cur bits, fewer than n. */
  lemma NoRunStep(w: Word, was: nat, n: nat, i: nat, cur: nat)
    requires i < |w| && NoRun(w, was, i) && was <= n
    requires 1 <= cur < n && cur <= i + 1 && IsRun(w, i + 1 - cur, i + 1)
    requires cur < i + 1 ==> w[i - cur] != w[i + 1 - cur]
    ensures NoRun(w, n, i + 1)
  {
    forall from: nat | from + n <= i + 1 ensures !RunAt(w, from, n) {
      assert from <= i - cur && w[i - cur] != w[i + 1 - cur];
      assert from + n <= i ==> !RunAt(w, from, was);
      assert RunAt(w, from, n) && from + n <= i ==> RunAt(w, from, was);
    }
  }

  lemma ExtremeAddressIsARun(aa: Word)
    requires |aa| == 32 && (ToNat(aa) == 0 || ToNat(aa) == 0xFFFF_FFFF)
    ensures HasLongRun(aa)
  {
    if ToNat(aa) == 0 {
      AllZero(aa);
    } else {
      assert Pow2(8) == 0x100 && Pow2(16) == 0x100 * Pow2(8) && Pow2(24) == 0x100 * Pow2(16);
      assert Pow2(32) == 0x100 * Pow2(24);
      AllOne(aa);
    }
    assert RunAt(aa, 0, 7);
  }

  lemma {:induction false} AllZero(w: Word)
    requires ToNat(w) == 0
    ensures forall i :: 0 <= i < |w| ==> !w[i]
  {
    if |w| > 0 {
      AllZero(w[1..]);
      assert w == [w[0]] + w[1..];
    }
  }

  lemma {:induction false} AllOne(w: Word)
    requires ToNat(w) == Pow2(|w|) - 1
    ensures forall i :: 0 <= i < |w| ==> w[i]
  {
    if |w| > 0 {
      AllOne(w[1..]);
      assert w == [w[0]] + w[1..];
    }
  }

  /** What a channel worker has handed on and what is still queued: it takes one frame after each
      push that reports a packet. */
  datatype Taken = Taken(frames: seq<Frame>, queue: seq<Frame>)

  function TakeAfterPush(t: Taken, more: seq<Frame>): (u: Taken)
    ensures |u.queue| < FRAME_QUEUE
  {
    var q := Capped(t.queue + more);
    if q == [] then Taken(t.frames, []) else Taken(t.frames + [q[0]], q[1..])
  }

  /** The worker's account after the bits s. */
  ghost function Consumed(channel: nat, s: Word): (t: Taken)
    ensures |t.queue| < FRAME_QUEUE
  {
    if |s| == 0 then Taken([], [])
    else
      TakeAfterPush(Consumed(channel, s[..|s| - 1]), NewFrames(channel, s[..|s| - 1], s[|s| - 1]))
  }

  lemma ConsumedNext(channel: nat, s: Word, bit: bool)
    ensures Consumed(channel, s + [bit]) == TakeAfterPush(Consumed(channel, s), NewFrames(channel, s, bit))
  {
    assert (s + [bit])[..|s|] == s;
  }

  /** Some push completed more frames than the queue had room for. */
  ghost predicate Overflowed(channel: nat, s: Word) {
    |s| > 0 &&
    (Overflowed(channel, s[..|s| - 1])
     || |Consumed(channel, s[..|s| - 1]).queue| + |NewFrames(channel, s[..|s| - 1], s[|s| - 1])| > 8)
  }

  /** The worker's loop over one block of demodulated bits. */
  method ProcessStream(d: Decoder, bits: Word) returns (frames: seq<Frame>)
    requires d.Valid() && d.pending == Consumed(d.channel, d.pushed).queue
    modifies d, d.cand
    ensures d.Valid() && d.pushed == old(d.pushed) + bits
    ensures Consumed(d.channel, d.pushed).queue == d.pending
    ensures Consumed(d.channel, d.pushed).frames == Consumed(d.channel, old(d.pushed)).frames + frames
  {
    hide Judge, Scan, Consumed, NewFrames, Capped;
    frames := [];
    ghost var base := Consumed(d.channel, d.pushed).frames;
    assert base + [] == base;
    var i := 0;
    while i < |bits|
      invariant i <= |bits| && d.Valid()
      invariant d.pushed == old(d.pushed) + bits[..i]
      invariant Consumed(d.channel, d.pushed).queue == d.pending
      invariant Consumed(d.channel, d.pushed).frames == base + frames
    {
      ConsumedNext(d.channel, d.pushed, bits[i]);
      var status := d.PushBit(bits[i]);
      if status == ValidPacket {
        var ok, frame := d.GetFrame();
        assert (base + frames) + [frame] == base + (frames + [frame]);
        frames := frames + [frame];
      }
      i := i + 1;
    }
  }

  /** One push and one take keep every frame in order, but for those beyond the eight oldest waiting. */
  lemma TakingLosesOnlyOverflow(t: Taken, more: seq<Frame>)
    ensures |TakeAfterPush(t, more).frames| == |t.frames| + if t.queue == more == [] then 0 else 1
    ensures var u := TakeAfterPush(t, more);
            if |t.queue| + |more| <= 8 then u.frames + u.queue == t.frames + t.queue + more
            else
              && u.frames + u.queue == t.frames + (t.queue + more)[..8]
              && |u.frames| + |u.queue| < |t.frames| + |t.queue| + |more|
  {
    var q := Capped(t.queue + more);
    if q != [] {
      assert (t.frames + [q[0]]) + q[1..] == t.frames + ([q[0]] + q[1..]) == t.frames + q;
    }
    assert t.frames + (t.queue + more) == t.frames + t.queue + more;
  }

  /** The worker delivers every frame of the stream, in order, if and only if no push overflows the
      queue; otherwise it delivers fewer. */
  lemma {:induction false} DeliveredUnlessOverflowed(channel: nat, s: Word)
    ensures var t, all := Consumed(channel, s), Scan(channel, s).frames;
            && (!Overflowed(channel, s) ==> t.frames + t.queue == all)
            && (Overflowed(channel, s) ==> |t.frames| + |t.queue| < |all|)
  {
    hide Judge, TakeAfterPush;
    if |s| > 0 {
      hide Scan, Consumed;
      var p, bit := s[..|s| - 1], s[|s| - 1];
      DeliveredUnlessOverflowed(channel, p);
      assert s == p + [bit];
      ScanExtends(channel, p, [bit]);
      ConsumedNext(channel, p, bit);
      var t, more := Consumed(channel, p), NewFrames(channel, p, bit);
      TakingLosesOnlyOverflow(t, more);
      var u := Consumed(channel, s);
      assert Scan(channel, s).frames == Scan(channel, p).frames + more;
    }
  }
}
