/** The pointers of the PCM ring: both wrap at a boundary, in 32-bit arithmetic. */
module PcmPointers {

  import opened Bits

  const INT_MAX := 0x7FFF_FFFF

  /** Assignment to an `unsigned int`. */
  function ToUnsigned(x: int): (r: nat)
    ensures r < 0x1_0000_0000 && (0 <= x < 0x1_0000_0000 ==> r == x)
  {
    x % 0x1_0000_0000
  }

  /** Assignment to an `int`. */
  function ToInt(x: int): (r: int)
    ensures -INT_MAX - 1 <= r <= INT_MAX && (-INT_MAX - 1 <= x <= INT_MAX ==> r == x)
  {
    (x + INT_MAX + 1) % 0x1_0000_0000 - INT_MAX - 1
  }

  // ----- arithmetic -----

  lemma PowMultiple(b: nat, k: nat)
    requires b > 0
    ensures (b * Pow2(k)) % b == 0 && b * Pow2(k + 1) == 2 * (b * Pow2(k))
  {
    Multiple(Pow2(k), b);
  }

  lemma Multiple(q: nat, m: nat)
    requires m > 0
    ensures (m * q) % m == 0
  {
    ModUnique(m * q, m, q, 0);
  }

  // ----- the boundary -----

  /** A buffer and a boundary as `pcm_open` picks them, unless the buffer takes more than a third of an int. */
  predicate Geometry(size: nat, boundary: nat) {
    0 < size && 2 * size <= boundary && boundary % size == 0 && boundary + size <= INT_MAX
  }

  /** The loop of `pcm_open`: the buffer size is doubled as long as a buffer more fits an int. */
  method PickBoundary(bufferSize: nat) returns (boundary: nat)
    requires 0 < bufferSize <= INT_MAX
    ensures exists k :: boundary == bufferSize * Pow2(k)
    ensures boundary % bufferSize == 0
    ensures boundary * 2 > INT_MAX - bufferSize
    ensures boundary == bufferSize || boundary <= INT_MAX - bufferSize
    ensures Geometry(bufferSize, boundary) <==> 3 * bufferSize <= INT_MAX
  {
    boundary := bufferSize;
    ghost var k := 0;
    while ToUnsigned(boundary * 2) <= ToUnsigned(INT_MAX - bufferSize)
      invariant boundary == bufferSize * Pow2(k) && 0 < boundary <= INT_MAX
      invariant if k == 0 then boundary == bufferSize else 2 * bufferSize <= boundary <= INT_MAX - bufferSize
      decreases INT_MAX - boundary
    {
      PowMultiple(bufferSize, k);
      k := k + 1;
      boundary := ToUnsigned(boundary * 2);
    }
    PowMultiple(bufferSize, k);
  }

  // ----- the pointers -----

  /** `pcm_mmap_playback_avail` */
  function PlaybackAvail(hw: nat, appl: nat, size: nat, boundary: nat): int {
    var avail := ToInt(hw + size - appl);
    if avail < 0 then ToInt(avail + boundary)
    else if avail > ToInt(boundary) then ToInt(avail - boundary)
    else avail
  }

  /** `pcm_mmap_capture_avail` */
  function CaptureAvail(hw: nat, appl: nat, boundary: nat): int {
    var avail := ToInt(hw - appl);
    if avail < 0 then ToInt(avail + boundary) else avail
  }

  /** `pcm_mmap_appl_forward` */
  function Forward(appl: nat, frames: nat, boundary: nat): nat {
    var sum := ToUnsigned(appl + frames);
    if sum > boundary then sum - boundary else sum
  }

  /** The hardware wraps as soon as it reaches the boundary. */
  function HwForward(hw: nat, frames: nat, boundary: nat): nat {
    if hw + frames >= boundary then hw + frames - boundary else hw + frames
  }

  /** The pointers, and how many frames passed each of them in the whole run. */
  datatype Ring = Ring(hw: nat, appl: nat, hwFrames: nat, applFrames: nat)

  const EMPTY := Ring(0, 0, 0, 0)

  /** How far one side is ahead of the other: frames to be played, or frames to be read. */
  function Fill(r: Ring, capture: bool): int {
    if capture then r.hwFrames - r.applFrames else r.applFrames - r.hwFrames
  }

  /** The pointers are the counts modulo the boundary, but the application may stay on the boundary. */
  predicate Tracks(r: Ring, capture: bool, size: nat, boundary: nat)
    requires Geometry(size, boundary)
  {
    && 0 <= Fill(r, capture) <= size
    && r.hw == r.hwFrames % boundary
    && r.appl <= boundary && r.appl % boundary == r.applFrames % boundary && (r.appl == 0 <==> r.applFrames == 0)
    && var ahead := r.applFrames - r.hwFrames;
       r.appl - r.hw == ahead || r.appl - r.hw == ahead - boundary || r.appl - r.hw == ahead + boundary
  }

  datatype Move = Application(frames: nat) | Hardware(frames: nat)

  /** The application writes into free space or reads what is there; the hardware does the opposite. */
  predicate Allowed(r: Ring, m: Move, capture: bool, size: nat) {
    var filled := if capture then m.Hardware? else m.Application?;
    m.frames <= if filled then size - Fill(r, capture) else Fill(r, capture)
  }

  function Moved(r: Ring, m: Move, boundary: nat): Ring {
    match m
    case Application(n) => r.(appl := Forward(r.appl, n, boundary), applFrames := r.applFrames + n)
    case Hardware(n) => r.(hw := HwForward(r.hw, n, boundary), hwFrames := r.hwFrames + n)
  }

  lemma ModAdd(x: nat, n: nat, m: nat)
    requires 0 < m && n <= m
    ensures (x + n) % m == if x % m + n >= m then x % m + n - m else x % m + n
  {
    var q, r := x / m, x % m;
    assert x == q * m + r;
    if r + n >= m {
      if r + n - m < m {
        assert x + n == (q + 1) * m + (r + n - m);
        ModUnique(x + n, m, q + 1, r + n - m);
      }
    } else {
      ModUnique(x + n, m, q, r + n);
    }
  }

  lemma ApplicationTracks(r: Ring, n: nat, capture: bool, size: nat, boundary: nat)
    requires Geometry(size, boundary) && Tracks(r, capture, size, boundary) && Allowed(r, Application(n), capture, size)
    ensures Tracks(Moved(r, Application(n), boundary), capture, size, boundary)
  {
    var r' := Moved(r, Application(n), boundary);
    ModAdd(r.applFrames, n, boundary);
    ModSmall(r.appl, boundary);
    ModSmall(r'.appl, boundary);
    assert r'.appl == if r.appl + n > boundary then r.appl + n - boundary else r.appl + n;
    assert r'.appl % boundary == r'.applFrames % boundary;
  }

  lemma HardwareTracks(r: Ring, n: nat, capture: bool, size: nat, boundary: nat)
    requires Geometry(size, boundary) && Tracks(r, capture, size, boundary) && Allowed(r, Hardware(n), capture, size)
    ensures Tracks(Moved(r, Hardware(n), boundary), capture, size, boundary)
  {
    ModAdd(r.hwFrames, n, boundary);
  }

  /** One move keeps the pointers in step with the counts. */
  lemma MoveTracks(r: Ring, m: Move, capture: bool, size: nat, boundary: nat)
    requires Geometry(size, boundary) && Tracks(r, capture, size, boundary) && Allowed(r, m, capture, size)
    ensures Tracks(Moved(r, m, boundary), capture, size, boundary)
  {
    hide Tracks, Geometry;
    match m
    case Application(n) => ApplicationTracks(r, n, capture, size, boundary);
    case Hardware(n) => HardwareTracks(r, n, capture, size, boundary);
  }

  lemma ModSmall(x: nat, m: nat)
    requires 0 < m && x <= m
    ensures x % m == if x == m then 0 else x
  {}

  /** Every run of moves that are allowed. */
  predicate Run(r: Ring, moves: seq<Move>, capture: bool, size: nat, boundary: nat)
    decreases |moves|
  {
    moves == [] || (Allowed(r, moves[0], capture, size) && Run(Moved(r, moves[0], boundary), moves[1..], capture, size, boundary))
  }

  function After(r: Ring, moves: seq<Move>, boundary: nat): Ring
    decreases |moves|
  {
    if moves == [] then r else After(Moved(r, moves[0], boundary), moves[1..], boundary)
  }

  lemma {:induction false} RunTracks(r: Ring, moves: seq<Move>, capture: bool, size: nat, boundary: nat)
    requires Geometry(size, boundary) && Tracks(r, capture, size, boundary) && Run(r, moves, capture, size, boundary)
    ensures Tracks(After(r, moves, boundary), capture, size, boundary)
    decreases |moves|
  {
    if moves != [] {
      MoveTracks(r, moves[0], capture, size, boundary);
      RunTracks(Moved(r, moves[0], boundary), moves[1..], capture, size, boundary);
    }
  }

  /** The ring is full, and of the two pointers only the application's has wrapped. */
  predicate Overstated(r: Ring, size: nat) {
    Fill(r, false) == size && r.appl < r.hw
  }

  /** The free space is computed exactly, but for the one state where it reads as the boundary. */
  lemma PlaybackAvailExactly(r: Ring, size: nat, boundary: nat)
    requires Geometry(size, boundary) && Tracks(r, false, size, boundary)
    ensures PlaybackAvail(r.hw, r.appl, size, boundary) ==
      if Overstated(r, size) then boundary else size - Fill(r, false)
    ensures PlaybackAvail(r.hw, r.appl, size, boundary) == size - Fill(r, false) <==> !Overstated(r, size)
  {}

  /** The frames to be read are computed exactly in every state. */
  lemma CaptureAvailExactly(r: Ring, size: nat, boundary: nat)
    requires Geometry(size, boundary) && Tracks(r, true, size, boundary)
    ensures CaptureAvail(r.hw, r.appl, boundary) == Fill(r, true)
  {}

  /** Both in every state that a run from the start reaches. */
  lemma AvailOverRuns(moves: seq<Move>, capture: bool, size: nat, boundary: nat)
    requires Geometry(size, boundary) && Run(EMPTY, moves, capture, size, boundary)
    ensures var r := After(EMPTY, moves, boundary);
      && Tracks(r, capture, size, boundary)
      && (capture ==> CaptureAvail(r.hw, r.appl, boundary) == Fill(r, true))
      && (!capture ==>
           PlaybackAvail(r.hw, r.appl, size, boundary) == if Overstated(r, size) then boundary else size - Fill(r, false))
  {
    RunTracks(EMPTY, moves, capture, size, boundary);
    var r := After(EMPTY, moves, boundary);
    if capture {
      CaptureAvailExactly(r, size, boundary);
    } else {
      PlaybackAvailExactly(r, size, boundary);
    }
  }

  /** One frame at a time is written and played. */
  function Pairs(n: nat): seq<Move> {
    if n == 0 then [] else [Application(1), Hardware(1)] + Pairs(n - 1)
  }

  lemma {:induction false} PairsRun(i: nat, n: nat, last: Move, size: nat, boundary: nat)
    requires Geometry(size, boundary) && i + n < boundary && last == Application(size)
    ensures var moves := Pairs(n) + [last];
      && Run(Ring(i, i, i, i), moves, false, size, boundary)
      && After(Ring(i, i, i, i), moves, boundary) == Moved(Ring(i + n, i + n, i + n, i + n), last, boundary)
    decreases n
  {
    var r := Ring(i, i, i, i);
    var moves := Pairs(n) + [last];
    if n == 0 {
      assert moves == [last] && moves[1..] == [];
    } else {
      PairsRun(i + 1, n - 1, last, size, boundary);
      var later := Pairs(n - 1) + [last];
      assert moves[0] == Application(1) && moves[1..][0] == Hardware(1) && moves[1..][1..] == later;
      var r1 := Moved(r, Application(1), boundary);
      assert Moved(r1, Hardware(1), boundary) == Ring(i + 1, i + 1, i + 1, i + 1);
      assert Run(r1, moves[1..], false, size, boundary);
    }
  }

  /** With one frame only, the state with overstated space is never reached. */
  lemma OverstatedNeverReached(r: Ring, boundary: nat)
    requires Geometry(1, boundary) && Tracks(r, false, 1, boundary)
    ensures !Overstated(r, 1)
  {}

  /** The state with overstated space is reached in every other ring: play up to one frame in front of the
      boundary, and fill the ring. */
  lemma OverstatedIsReached(size: nat, boundary: nat) returns (moves: seq<Move>)
    requires Geometry(size, boundary) && size > 1
    ensures Run(EMPTY, moves, false, size, boundary) && Overstated(After(EMPTY, moves, boundary), size)
  {
    moves := Pairs(boundary - 1) + [Application(size)];
    PairsRun(0, boundary - 1, Application(size), size, boundary);
  }
}
