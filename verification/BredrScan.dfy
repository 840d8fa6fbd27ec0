/** What the BR/EDR framer is meant to extract from a bit stream, stated on the stream as a whole: the first
    window that is an access code, the packet behind it, and so on from the packet's end. */
module BredrScan {
  import opened Bits
  import opened Distances
  import opened Wrappers
  import BredrSync

  datatype Frame = Frame(start: nat, lap: Word, errors: nat, hasHeader: bool, header: Word, payload: Word)

  /** The window carries a LAP in bits 34 to 57, is within the tolerance of that LAP's sync word, and its last
      seven bits are within one bit of 0x27 or of 0x58. */
  predicate IsCode(w: Word, lap: Word, maxErrors: nat)
    requires |w| == 64 && |lap| == 24
  {
    && w[34..58] == lap
    && Distance(w, BredrSync.SyncWord(lap)) <= maxErrors
    && (|| Distance(w[57..], [true, true, true, false, false, true, false]) <= 1
        || Distance(w[57..], [false, false, false, true, true, false, true]) <= 1)
  }

  /** The 64 newest bits. */
  function Newest(s: Word): (w: Word)
    requires |s| >= 64
    ensures |w| == 64
  {
    s[|s| - 64..]
  }

  /** The search tail after more bits were searched: at most the 64 newest. */
  function Tail(s: Word): (t: Word)
    ensures |t| <= 64
  {
    if |s| >= 64 then Newest(s) else s
  }

  /** An access code ends with the n-th bit of s; `prior` are the bits searched before. */
  predicate CodeAt(prior: Word, s: Word, n: nat, maxErrors: nat) {
    && 0 < n <= |s| && |prior| + n >= 64
    && var w := Newest(prior + s[..n]); IsCode(w, w[34..58], maxErrors)
  }

  /** The first place from n on at which an access code ends; |s| + 1 when there is none. */
  function NextCode(prior: Word, s: Word, n: nat, maxErrors: nat): (m: nat)
    requires 0 < n <= |s| + 1
    ensures n <= m <= |s| + 1
    ensures m <= |s| ==> CodeAt(prior, s, m, maxErrors)
    ensures forall k :: n <= k < m ==> !CodeAt(prior, s, k, maxErrors)
    decreases |s| - n
  {
    if n > |s| || CodeAt(prior, s, n, maxErrors) then n else NextCode(prior, s, n + 1, maxErrors)
  }

  /** The general and the limited inquiry code have no trailer. */
  predicate Inquiry(lap: Word) {
    ToNat(lap) == 0x9E8B33 || ToNat(lap) == 0x9E8B00
  }

  /** Where a packet starts whose sync word ends before stream position `end`: four preamble bits and 64 sync
      bits earlier, as a 64-bit number. */
  function StartOf(end: nat): nat {
    (end - 68) % 0x1_0000_0000_0000_0000
  }

  /** What the packet is whose sync word w is followed by s: a shortened one (no trailer for an inquiry, or
      a trailer that does not alternate), a whole one, or one that is not complete. */
  datatype Body = Incomplete | Shortened(bits: nat) | Whole(header: Word, payload: Word)

  function BodyOf(w: Word, s: Word): (b: Body)
    requires |w| == 64
    ensures Extent(b) <= |s|
  {
    if Inquiry(w[34..58]) then Shortened(0)
    else if |s| < 4 then Incomplete
    else if s[0] == w[63] || s[1] == s[0] || s[2] == s[1] || s[3] == s[2] then Shortened(4)
    else if |s| < 3057 then Incomplete
    else Whole(s[4..58], s[58..3057])
  }

  /** How many bits behind the sync word belong to the packet. */
  function Extent(b: Body): nat {
    match b
    case Incomplete => 0
    case Shortened(k) => k
    case Whole(_, _) => 3057
  }

  /** The frame of a packet whose sync word w ends before stream position `end`. */
  function FrameAt(w: Word, b: Body, end: nat): (f: Frame)
    requires |w| == 64
    ensures f.start == StartOf(end)
  {
    var lap := w[34..58];
    var errors := Distance(w, BredrSync.SyncWord(lap));
    match b
    case Whole(header, payload) => Frame(StartOf(end), lap, errors, true, header, payload)
    case _ => Frame(StartOf(end), lap, errors, false, [], [])
  }

  /** The frames of the stream, and the search tail when the stream does not end inside a packet. */
  datatype Scanned = Scanned(frames: seq<Frame>, tail: Option<Word>)

  function Prepend(f: Frame, r: Scanned): Scanned {
    r.(frames := [f] + r.frames)
  }

  /** The packets of s, when `prior` was searched before it and its first bit has stream position `at`. */
  function Scan(prior: Word, s: Word, at: nat, maxErrors: nat): (r: Scanned)
    decreases |s|
  {
    var n := NextCode(prior, s, 1, maxErrors);
    if n > |s| then Scanned([], Some(Tail(prior + s)))
    else
      var w, rest := Newest(prior + s[..n]), s[n..];
      var b := BodyOf(w, rest);
      var k := Extent(b);
      if b.Incomplete? then Scanned([], None)
      else Prepend(FrameAt(w, b, at + n), Scan(w, rest[k..], at + n + k, maxErrors))
  }
}
