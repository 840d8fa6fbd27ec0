/** What the offline scanner promises about a whole stream: which packets it reports, and which it
    can miss. */
module BleScanFacts {
  import opened Bits
  import opened BleScan

  function Shifted(q: seq<nat>, n: nat): (r: seq<nat>)
    ensures |r| == |q| && forall i :: 0 <= i < |q| ==> r[i] == q[i] + n
  {
    seq(|q|, i requires 0 <= i < |q| => q[i] + n)
  }

  /** The stream positions at which the scanner reports a packet. */
  ghost function Starts(channel: nat, s: Word): (q: seq<nat>)
    decreases |s|
  {
    match Judge(channel, s)
    case Wait => []
    case Reject => Shifted(Starts(channel, s[1..]), 1)
    case Accept(_, n) => [0] + Shifted(Starts(channel, s[n..]), n)
  }

  ghost predicate PacketAt(channel: nat, s: Word, p: nat) {
    p <= |s| && Judge(channel, s[p..]).Accept?
  }

  /** Position p lies inside the packet reported at q. */
  ghost predicate Swallows(channel: nat, s: Word, q: nat, p: nat) {
    PacketAt(channel, s, q) && q < p < q + Judge(channel, s[q..]).advance
  }

  lemma PacketShifts(channel: nat, s: Word, n: nat, p: nat)
    requires n <= p && n <= |s|
    ensures PacketAt(channel, s[n..], p - n) == PacketAt(channel, s, p)
    ensures PacketAt(channel, s, p) ==> s[n..][p - n..] == s[p..]
  {
    if p <= |s| {
      assert s[n..][p - n..] == s[p..];
    }
  }

  ghost predicate FrameAtStart(channel: nat, s: Word, f: Frame, p: nat) {
    PacketAt(channel, s, p) && f == Judge(channel, s[p..]).frame
  }

  ghost predicate Paired(channel: nat, s: Word, q: seq<nat>, frames: seq<Frame>, n: nat) {
    |q| == |frames| && forall i :: 0 <= i < |q| ==> FrameAtStart(channel, s, frames[i], q[i] + n)
  }

  /** The i-th frame is the packet at the i-th start. */
  lemma {:induction false} StartsGiveFrames(channel: nat, s: Word)
    ensures |Starts(channel, s)| == |Scan(channel, s).frames|
    ensures forall i :: 0 <= i < |Starts(channel, s)| ==>
              FrameAtStart(channel, s, Scan(channel, s).frames[i], Starts(channel, s)[i])
    decreases |s|
  {
    hide Judge, FrameAtStart, PacketAt, Starts, Scan;
    FrontOf(channel, s);
    var v := Judge(channel, s);
    if !v.Wait? {
      var n := if v.Reject? then 1 else v.advance;
      var tail, frames := Starts(channel, s[n..]), Scan(channel, s[n..]).frames;
      StartsGiveFrames(channel, s[n..]);
      FrontFrame(channel, s);
      forall i | 0 <= i < |tail| ensures FrameAtStart(channel, s, frames[i], tail[i] + n) {
        FrameShifts(channel, s, n, frames[i], tail[i]);
      }
      assert Paired(channel, s, tail, frames, n);
    }
  }

  /** The scan and its starts, one verdict at a time. */
  lemma FrontOf(channel: nat, s: Word)
    ensures var v := Judge(channel, s);
            if v.Wait? then Starts(channel, s) == [] && Scan(channel, s).frames == []
            else
              var n := if v.Reject? then 1 else v.advance;
              var q, f := Shifted(Starts(channel, s[n..]), n), Scan(channel, s[n..]).frames;
              && Starts(channel, s) == (if v.Reject? then q else [0] + q)
              && Scan(channel, s).frames == (if v.Reject? then f else [v.frame] + f)
  {
    hide Judge;
  }

  lemma FrontFrame(channel: nat, s: Word)
    ensures Judge(channel, s).Accept? ==> FrameAtStart(channel, s, Judge(channel, s).frame, 0)
  {
    hide Judge;
    assert s[0..] == s;
  }

  lemma FrameShifts(channel: nat, s: Word, n: nat, f: Frame, p: nat)
    requires n <= |s| && FrameAtStart(channel, s[n..], f, p)
    ensures FrameAtStart(channel, s, f, p + n)
  {
    hide Judge;
    PacketShifts(channel, s, n, p + n);
  }

  /** Starts only grow, so frames come out in stream order and none twice. */
  lemma {:induction false} StartsIncrease(channel: nat, s: Word)
    ensures forall i, j :: 0 <= i < j < |Starts(channel, s)| ==> Starts(channel, s)[i] < Starts(channel, s)[j]
    decreases |s|
  {
    hide Judge;
    var v := Judge(channel, s);
    if !v.Wait? {
      StartsIncrease(channel, s[if v.Reject? then 1 else v.advance..]);
    }
  }

  lemma {:induction false} StartsSplit(channel: nat, s: Word, n: nat, p: nat)
    requires !Judge(channel, s).Wait?
    requires n == if Judge(channel, s).Reject? then 1 else Judge(channel, s).advance
    ensures n <= p ==> (p in Starts(channel, s) <==> p - n in Starts(channel, s[n..]))
    ensures 0 < p < n ==> p !in Starts(channel, s)
    ensures 0 in Starts(channel, s) <==> Judge(channel, s).Accept?
  {
    hide Judge, Starts, Scan;
    FrontOf(channel, s);
    var tail := Starts(channel, s[n..]);
    var moved := Shifted(tail, n);
    if n <= p && p - n in tail {
      var i :| 0 <= i < |tail| && tail[i] == p - n;
      assert moved[i] == p;
    }
  }

  /** Position p lies inside some reported packet. */
  ghost predicate Swallowed(channel: nat, s: Word, p: nat) {
    exists q: nat :: q in Starts(channel, s) && Swallows(channel, s, q, p)
  }

  lemma SwallowedShifts(channel: nat, s: Word, n: nat, p: nat)
    requires !Judge(channel, s).Wait?
    requires n == if Judge(channel, s).Reject? then 1 else Judge(channel, s).advance
    requires n <= p
    ensures Swallowed(channel, s, p) == Swallowed(channel, s[n..], p - n)
  {
    hide Judge, Starts;
    assert s[0..] == s;
    var t := s[n..];
    if Swallowed(channel, s, p) {
      var q: nat :| q in Starts(channel, s) && Swallows(channel, s, q, p);
      StartsSplit(channel, s, n, q);
      assert n <= q;
      PacketShifts(channel, s, n, q);
      assert q - n in Starts(channel, t) && Swallows(channel, t, q - n, p - n);
    }
    if Swallowed(channel, t, p - n) {
      var q: nat :| q in Starts(channel, t) && Swallows(channel, t, q, p - n);
      StartsSplit(channel, s, n, q + n);
      PacketShifts(channel, s, n, q + n);
      assert q + n in Starts(channel, s) && Swallows(channel, s, q + n, p);
    }
  }

  /** No packet is lost unless an advertising packet swallows it: of the packets that are followed by
      enough bits for every earlier candidate to be decided, those reported are exactly those that
      do not start inside a reported packet. */
  lemma {:induction false} ReportedUnlessSwallowed(channel: nat, s: Word, p: nat)
    requires PacketAt(channel, s, p)
    requires p + 2120 <= |s|
    ensures p in Starts(channel, s) <==> !Swallowed(channel, s, p)
    decreases |s|
  {
    if Judge(channel, s).Wait? {
      WaitIsBounded(channel, s);
      assert false;
    }
    hide Judge, Starts;
    assert s[0..] == s;
    var n := if Judge(channel, s).Reject? then 1 else Judge(channel, s).advance;
    StartsSplit(channel, s, n, p);
    if p >= n {
      PacketShifts(channel, s, n, p);
      ReportedUnlessSwallowed(channel, s[n..], p - n);
      SwallowedShifts(channel, s, n, p);
    } else if p > 0 {
      assert 0 in Starts(channel, s) && Swallows(channel, s, 0, p);
    }
  }

  /** Only an advertising packet can swallow another. */
  lemma OnlyAdvertisingSwallows(channel: nat, s: Word, q: nat, p: nat)
    requires Swallows(channel, s, q, p)
    ensures Judge(channel, s[q..]).frame.kind == Advertising
  {
    assert s[q..][0..] == s[q..];
  }
}
