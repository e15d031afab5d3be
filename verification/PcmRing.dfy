/** The mmap ring of pcm.c as a queue of frames between the application and the hardware. */
module PcmRing {

  import opened Bits
  import opened PcmPointers

  // ----- slots -----

  lemma SlotAdd(t: nat, i: nat, size: nat)
    requires 0 < size && t % size + i < size
    ensures (t + i) % size == t % size + i
  {
    ModAdd(t, i, size);
  }

  /** Frames less than a buffer apart are in different slots. */
  lemma SlotsDiffer(t: nat, u: nat, size: nat)
    requires 0 < size && t < u < t + size
    ensures t % size != u % size
  {
    ModAdd(t, u - t, size);
  }

  /** Behind the last slot comes the first. */
  lemma SlotAfter(w: nat, n: nat, size: nat)
    requires 0 < size && w % size + n <= size
    ensures (w + n) % size == if w % size + n == size then 0 else w % size + n
  {
    ModAdd(w, n, size);
  }

  /** A frame less than a buffer behind is not in one of the next slots. */
  lemma SlotKept(t: nat, w: nat, n: nat, size: nat)
    requires 0 < size && t < w && w + n <= t + size && w % size + n <= size
    ensures t % size < w % size || t % size >= w % size + n
  {
    var i := t % size - w % size;
    if 0 <= i < n {
      SlotAdd(w, i, size);
      SlotsDiffer(t, w + i, size);
    }
  }

  /** The boundary is a multiple of the buffer size, so the pointer tells the slot. */
  lemma SlotOfPointer(x: nat, p: nat, size: nat, boundary: nat)
    requires Geometry(size, boundary) && p <= boundary && p % boundary == x % boundary
    ensures p % size == x % size
  {
    ModOfMod(x, size, boundary);
    ModOfMod(p, size, boundary);
  }

  lemma ModOfMod(x: nat, size: nat, boundary: nat)
    requires Geometry(size, boundary)
    ensures (x % boundary) % size == x % size
  {
    var r := x % boundary;
    var k := boundary / size;
    assert x == (x / boundary) * boundary + r;
    assert boundary == k * size;
    var q := (x / boundary) * k;
    assert (x / boundary) * (k * size) == q * size;
    assert x == (q + r / size) * size + r % size;
    ModUnique(x, size, q + r / size, r % size);
  }

  /** Counting on from the pointer or from the count of frames leads to the same slot. */
  lemma PointerAdd(x: nat, p: nat, i: nat, size: nat, boundary: nat)
    requires Geometry(size, boundary) && p == x % boundary && i <= size
    ensures (p + i) % size == (x + i) % size
  {
    ModOfMod(x, size, boundary);
    ModAdd(p, i, size);
    ModAdd(x, i, size);
  }

  // ----- playback -----

  /** A device opened for playback. `written` and `played` are the frames that went into the ring and out
      of it in the whole run; only the hardware knows how far it is, the program has the pointers. */
  class Pcm<F> {
    const bufferSize: nat
    const boundary: nat
    const mmapBuffer: array<F>
    var hwPtr: nat
    var applPtr: nat
    var queued: nat
    ghost var written: seq<F>
    ghost var played: seq<F>

    ghost predicate Valid()
      reads this, mmapBuffer
    {
      && Geometry(bufferSize, boundary) && mmapBuffer.Length == bufferSize
      && queued == |written| - |played|
      && Tracks(Ring(hwPtr, applPtr, |played|, |written|), false, bufferSize, boundary)
      && played <= written
      && forall t | |played| <= t < |written| :: mmapBuffer[t % bufferSize] == written[t]
    }

    ghost function Free(): nat
      reads this, mmapBuffer
      requires Valid()
    {
      bufferSize - queued
    }

    constructor (size: nat, mmap: array<F>)
      requires 0 < size == mmap.Length && 3 * size <= INT_MAX
      ensures Valid() && bufferSize == size && mmapBuffer == mmap && written == [] && played == []
    {
      bufferSize := size;
      var bound := PickBoundary(size);
      boundary := bound;
      mmapBuffer := mmap;
      hwPtr, applPtr, queued := 0, 0, 0;
      written, played := [], [];
    }

    /** What the hardware reads from the ring. */
    ghost function Sounding(n: nat): (r: seq<F>)
      reads this, mmapBuffer
      requires bufferSize > 0 && mmapBuffer.Length == bufferSize
      ensures |r| == n
    {
      seq(n, i requires 0 <= i < n reads this, mmapBuffer requires bufferSize > 0 && mmapBuffer.Length == bufferSize
        => mmapBuffer[(hwPtr + i) % bufferSize])
    }

    /** What it reads are the frames that were written, in their order. */
    lemma SoundsAsWritten(n: nat)
      requires Valid() && n <= queued
      ensures played + Sounding(n) == written[..|played| + n]
    {
      forall i | 0 <= i < n ensures Sounding(n)[i] == written[|played| + i] {
        PointerAdd(|played|, hwPtr, i, bufferSize, boundary);
      }
    }

    /** The hardware plays what it finds in the ring, at most as many frames as were written. */
    method Play(frames: nat)
      requires Valid()
      modifies this`hwPtr, this`queued, this`played
      ensures Valid() && old(played) <= played
      ensures |played| == |old(played)| + if frames < old(queued) then frames else old(queued)
    {
      var n := if frames < queued then frames else queued;
      HardwareTracks(Ring(hwPtr, applPtr, |played|, |written|), n, false, bufferSize, boundary);
      SoundsAsWritten(n);
      played := played + Sounding(n);
      hwPtr := HwForward(hwPtr, n, boundary);
      queued := queued - n;
    }

    /** What `pcm_mmap_begin` takes for the free space: too much in one state of the pointers. */
    ghost function Offered(): nat
      reads this, mmapBuffer
      requires Valid()
    {
      if Overstated(Ring(hwPtr, applPtr, |played|, |written|), bufferSize) then bufferSize else Free()
    }

    /** `pcm_mmap_begin`; `progress` is what the hardware plays up to the synchronisation in it. */
    method Begin(wanted: nat, progress: nat) returns (offset: nat, frames: nat)
      requires Valid()
      modifies this`hwPtr, this`queued, this`played
      ensures Valid() && old(played) <= played && Free() >= old(Free()) && offset == |written| % bufferSize
      ensures frames <= wanted && frames <= Offered() && frames <= bufferSize - offset
      ensures frames == wanted || frames == Offered() || frames == bufferSize - offset
    {
      SlotOfPointer(|written|, applPtr, bufferSize, boundary);
      offset := applPtr % bufferSize;
      Play(progress);
      PlaybackAvailExactly(Ring(hwPtr, applPtr, |played|, |written|), bufferSize, boundary);
      var avail := ToUnsigned(PlaybackAvail(hwPtr, applPtr, bufferSize, boundary));
      if avail > bufferSize {
        avail := bufferSize;
      }
      var continuous := bufferSize - offset;
      frames := wanted;
      if frames > avail {
        frames := avail;
      }
      if frames > continuous {
        frames := continuous;
      }
    }

    /** `pcm_areas_copy` towards the ring. */
    method AreasCopy(offset: nat, buf: array<F>, from: nat, frames: nat)
      requires offset + frames <= mmapBuffer.Length && from + frames <= buf.Length && buf != mmapBuffer
      modifies mmapBuffer
      ensures mmapBuffer[..] == old(mmapBuffer[..offset]) + buf[from..from + frames] + old(mmapBuffer[offset + frames..])
    {
      forall i | 0 <= i < frames {
        mmapBuffer[offset + i] := buf[from + i];
      }
    }

    /** Frames copied to the slots behind the last written frame are in the slots of their numbers, and leave
        those alone that are still to be played. */
    lemma CopiedInPlace(before: seq<F>, more: seq<F>)
      requires Geometry(bufferSize, boundary) && mmapBuffer.Length == bufferSize == |before|
      requires played <= written && |written| - |played| + |more| <= bufferSize
      requires forall t | |played| <= t < |written| :: before[t % bufferSize] == written[t]
      requires var offset := |written| % bufferSize;
        offset + |more| <= bufferSize && mmapBuffer[..] == before[..offset] + more + before[offset + |more|..]
      ensures forall t | |played| <= t < |written| + |more| :: mmapBuffer[t % bufferSize] == (written + more)[t]
    {
      var offset := |written| % bufferSize;
      var now := mmapBuffer[..];
      forall t | |played| <= t < |written| + |more| ensures mmapBuffer[t % bufferSize] == (written + more)[t] {
        if t >= |written| {
          SlotAdd(|written|, t - |written|, bufferSize);
          assert now[offset + (t - |written|)] == more[t - |written|];
        } else {
          SlotKept(t, |written|, |more|, bufferSize);
          assert now[t % bufferSize] == before[t % bufferSize];
        }
      }
    }

    /** `pcm_mmap_commit`: the frames that were copied behind the others now belong to the hardware, which may
        play some of them in the synchronisation. */
    method Commit(frames: nat, progress: nat, ghost more: seq<F>) returns (committed: nat)
      requires Geometry(bufferSize, boundary) && mmapBuffer.Length == bufferSize && queued == |written| - |played|
      requires Tracks(Ring(hwPtr, applPtr, |played|, |written|), false, bufferSize, boundary)
      requires played <= written && |more| == frames <= bufferSize - queued
      requires forall t | |played| <= t < |written| + frames :: mmapBuffer[t % bufferSize] == (written + more)[t]
      modifies this`hwPtr, this`applPtr, this`queued, this`written, this`played
      ensures Valid() && written == old(written) + more && committed == frames && old(played) <= played
    {
      ApplicationTracks(Ring(hwPtr, applPtr, |played|, |written|), frames, false, bufferSize, boundary);
      applPtr := Forward(applPtr, frames, boundary);
      queued := queued + frames;
      written := written + more;
      Play(progress);
      committed := frames;
    }

    /** One round of begin, copy and commit. */
    method Round(buf: array<F>, from: nat, wanted: nat, progress: nat, progressAfter: nat) returns (commit: nat)
      requires Valid() && 0 < wanted <= Free() && from + wanted <= buf.Length && buf != mmapBuffer
      modifies this`hwPtr, this`applPtr, this`queued, this`written, this`played, mmapBuffer
      ensures Valid() && 0 < commit <= wanted && Free() >= old(Free()) - commit
      ensures written == old(written) + buf[from..from + commit] && old(played) <= played
      ensures commit == wanted || |written| % bufferSize == 0
      ensures |old(written)| % bufferSize == 0 ==> commit == wanted
    {
      hide Tracks;
      var pcmOffset, frames := Begin(wanted, progress);
      assert Offered() == Free();
      ghost var before, more := mmapBuffer[..], buf[from..from + frames];
      AreasCopy(pcmOffset, buf, from, frames);
      CopiedInPlace(before, more);
      SlotAfter(|written|, frames, bufferSize);
      commit := Commit(frames, progressAfter, more);
    }

    /** `pcm_mmap_transfer_areas`, whatever the hardware plays in the meantime: with room for all the frames it
        takes two rounds at most, appends them to what was written and leaves every unplayed frame in place. */
    method TransferAreas(buf: array<F>, offset: nat, size: nat, progress: nat -> nat) returns (count: nat, rounds: nat)
      requires Valid() && size <= Free() && offset + size <= buf.Length && buf != mmapBuffer
      modifies this`hwPtr, this`applPtr, this`queued, this`written, this`played, mmapBuffer
      ensures Valid() && count == size && rounds <= 2
      ensures written == old(written) + buf[offset..offset + size] && old(played) <= played
    {
      hide Tracks;
      var from, left := offset, size;
      count, rounds := 0, 0;
      while left > 0
        invariant Valid() && 0 <= left <= Free() && count + left == size && from == offset + count
        invariant written == old(written) + buf[offset..from] && old(played) <= played
        invariant rounds == 0 || (rounds == 1 && |written| % bufferSize == 0) || (rounds <= 2 && left == 0)
        decreases left
      {
        var commit := Round(buf, from, left, progress(2 * rounds), progress(2 * rounds + 1));
        assert buf[offset..from] + buf[from..from + commit] == buf[offset..from + commit];
        from := from + commit;
        count := count + commit;
        left := left - commit;
        rounds := rounds + 1;
      }
    }
  }
}
