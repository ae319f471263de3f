/** `extract_frames`: read a video frame by frame and save every
    `interval`-th frame under the next contiguous frame file name, stopping
    early at an optional cap on the number of saved frames. */
module Extract {
  import opened Wrappers
  import opened Naming
  import opened Files

  /** What the decoder makes of the video path: no such file, a file that
      does not open, or an opened stream whose native rate may read as zero
      and whose decoded frames are opaque values. */
  datatype Video<T> = Missing | Unopenable | Opened(fpsIsZero: bool, frames: seq<T>)

  /** Which exit the function takes. `ZeroInterval` is the division by zero
      at `total_frames // frame_interval`, raised before any frame is read. */
  datatype Outcome =
    | VideoNotFound
    | OpenFailed
    | InvalidFps
    | ZeroInterval
    | Extracted(saved: nat, framesRead: nat)

  function Abs(k: int): nat
  {
    if k < 0 then -k else k
  }

  /** Ceiling of `n / m`. */
  function CeilDiv(n: nat, m: nat): nat
    requires m > 0
  {
    (n + m - 1) / m
  }

  /** The frames the loop keeps when nothing stops it: frame `i` is kept when
      `i % interval == 0`, in source order. */
  function Sampled<T>(frames: seq<T>, interval: int): seq<T>
    requires interval != 0
  {
    if frames == [] then []
    else
      var i := |frames| - 1;
      Sampled(frames[..i], interval) + (if i % interval == 0 then [frames[i]] else [])
  }

  /** `max_frames` is a cap only when it is truthy: `None` and `0` are not. */
  predicate HasCap(maxFrames: Option<int>)
  {
    maxFrames.Some? && maxFrames.value != 0
  }

  /** The number of saves after which `saved_count >= max_frames` first
      holds: the cap itself, or a single save for a negative cap. */
  function CapLimit(maxFrames: Option<int>): nat
    requires HasCap(maxFrames)
  {
    if maxFrames.value < 1 then 1 else maxFrames.value
  }

  /** The frames that end up on disk, in output order. */
  function Saved<T>(frames: seq<T>, interval: int, maxFrames: Option<int>): seq<T>
    requires interval != 0
  {
    var s := Sampled(frames, interval);
    if HasCap(maxFrames) && CapLimit(maxFrames) < |s| then s[..CapLimit(maxFrames)] else s
  }

  /** Whether the loop leaves by the cap rather than at the end of the video. */
  predicate CapReached(total: nat, interval: int, maxFrames: Option<int>)
    requires interval != 0
  {
    HasCap(maxFrames) && CapLimit(maxFrames) <= CeilDiv(total, Abs(interval))
  }

  /** How many frames the loop takes from the decoder before it stops. */
  function FramesRead(total: nat, interval: int, maxFrames: Option<int>): nat
    requires interval != 0
  {
    if CapReached(total, interval, maxFrames)
    then (CapLimit(maxFrames) - 1) * Abs(interval) + 1
    else total
  }

  /** The files written for the saved frames: the `j`-th saved frame goes to
      `FrameName(j)`. */
  function Numbered<T>(saved: seq<T>): Listing<T>
  {
    if saved == [] then map[]
    else Numbered(saved[..|saved| - 1])[FrameName(|saved| - 1) := saved[|saved| - 1]]
  }

  // ---------------------------------------------------------------------
  // Arithmetic

  lemma MulAtLeast(m: int, t: int)
    requires m > 0 && t > 0
    ensures m * t >= m
  {
    assert m * t == m * (t - 1) + m;
  }

  lemma MulMono(a: nat, b: nat, m: nat)
    requires a <= b
    ensures a * m <= b * m
  {
    var d: nat := b - a;
    assert b * m == a * m + d * m;
  }

  /** Euclidean division by `b` is unique: a quotient and a remainder in
      `[0, |b|)` that rebuild `a` are `a / b` and `a % b`. */
  lemma DivModUnique(a: int, b: int, q: int, r: int)
    requires b != 0 && a == b * q + r && 0 <= r < Abs(b)
    ensures a / b == q && a % b == r
  {
    var t := q - a / b;
    assert a == b * (a / b) + a % b;
    assert b * t == a % b - r;
    if t > 0 {
      if b > 0 { MulAtLeast(b, t); } else { MulAtLeast(-b, t); }
    } else if t < 0 {
      if b > 0 { MulAtLeast(b, -t); } else { MulAtLeast(-b, -t); }
    }
  }

  lemma DivIs(a: int, m: int, q: int)
    requires m > 0 && q * m <= a < q * m + m
    ensures a / m == q
  {
    DivModUnique(a, m, q, a - q * m);
  }

  /** The zero test `i % k == 0` does not depend on the sign of `k`. */
  lemma ModZeroSign(i: nat, k: int)
    requires k != 0
    ensures (i % k == 0) == (i % Abs(k) == 0)
  {
    if k < 0 {
      var m := -k;
      var q, r := i / m, i % m;
      assert i == m * q + r;
      assert m * q == k * (-q);
      DivModUnique(i, k, -q, r);
    }
  }

  /** A frame index that passes the zero test is a multiple of the stride. */
  lemma ModZeroMultiple(i: nat, k: int)
    requires k != 0 && i % k == 0
    ensures i == (i / Abs(k)) * Abs(k)
  {
    ModZeroSign(i, k);
  }

  lemma CeilDivStep(n: nat, m: nat)
    requires m > 0
    ensures CeilDiv(n + 1, m) == CeilDiv(n, m) + (if n % m == 0 then 1 else 0)
  {
    var q, r := n / m, n % m;
    var p := q * m;
    assert n == p + r;
    assert (q + 1) * m == p + m;
    if r == 0 {
      DivIs(n + m - 1, m, q);
      DivIs(n + m, m, q + 1);
    } else {
      DivIs(n + m - 1, m, q + 1);
      DivIs(n + m, m, q + 1);
    }
  }

  lemma CeilDivOfMultiple(q: nat, m: nat)
    requires m > 0
    ensures CeilDiv(q * m, m) == q && CeilDiv(q * m + 1, m) == q + 1
  {
    DivIs(q * m + m - 1, m, q);
    DivIs(q * m + m, m, q + 1);
  }

  /** `CeilDiv(n, m)` is the least `c` with `n <= c * m`. */
  lemma CeilDivBounds(n: nat, m: nat)
    requires m > 0
    ensures n <= CeilDiv(n, m) * m
    ensures CeilDiv(n, m) > 0 ==> (CeilDiv(n, m) - 1) * m < n
  {
    var c := CeilDiv(n, m);
    assert m * c + (n + m - 1) % m == n + m - 1;
  }

  // ---------------------------------------------------------------------
  // The sampling rule

  lemma SampledSnoc<T>(frames: seq<T>, i: nat, interval: int)
    requires interval != 0 && i < |frames|
    ensures Sampled(frames[..i + 1], interval)
         == Sampled(frames[..i], interval) + (if i % interval == 0 then [frames[i]] else [])
  {
    assert frames[..i + 1][..i] == frames[..i];
  }

  /** With no cap, `ceil(N / |interval|)` frames are saved. */
  lemma {:induction false} SampledLength<T>(frames: seq<T>, interval: int)
    requires interval != 0
    ensures |Sampled(frames, interval)| == CeilDiv(|frames|, Abs(interval))
  {
    if frames != [] {
      var i := |frames| - 1;
      SampledLength(frames[..i], interval);
      ModZeroSign(i, interval);
      CeilDivStep(i, Abs(interval));
    }
  }

  /** The `j`-th kept frame is source frame `j * |interval|`. */
  lemma {:induction false} SampledAt<T>(frames: seq<T>, interval: int, j: nat)
    requires interval != 0 && j < |Sampled(frames, interval)|
    ensures j * Abs(interval) < |frames|
    ensures Sampled(frames, interval)[j] == frames[j * Abs(interval)]
  {
    var i := |frames| - 1;
    var prefix := frames[..i];
    if j < |Sampled(prefix, interval)| {
      SampledAt(prefix, interval, j);
    } else {
      var m := Abs(interval);
      SampledLength(prefix, interval);
      ModZeroSign(i, interval);
      ModZeroMultiple(i, interval);
      CeilDivOfMultiple(i / m, m);
      assert j == i / m;
    }
  }

  /** What the loop has kept after reading a prefix of the video is a prefix
      of what it keeps from the whole video. */
  lemma {:induction false} SampledPrefix<T>(frames: seq<T>, interval: int, n: nat)
    requires interval != 0 && n <= |frames|
    ensures |Sampled(frames[..n], interval)| <= |Sampled(frames, interval)|
    ensures Sampled(frames[..n], interval)
         == Sampled(frames, interval)[..|Sampled(frames[..n], interval)|]
    decreases |frames|
  {
    if n == |frames| {
      assert frames[..n] == frames;
    } else {
      var front := frames[..|frames| - 1];
      assert front[..n] == frames[..n];
      SampledPrefix(front, interval, n);
    }
  }

  // ---------------------------------------------------------------------
  // The cap

  /** Exactly `min(ceil(N / |interval|), cap)` frames are saved. */
  lemma SavedCount<T>(frames: seq<T>, interval: int, maxFrames: Option<int>)
    requires interval != 0
    ensures var natural := CeilDiv(|frames|, Abs(interval));
            |Saved(frames, interval, maxFrames)|
            == if HasCap(maxFrames) && CapLimit(maxFrames) < natural then CapLimit(maxFrames) else natural
  {
    SampledLength(frames, interval);
  }

  /** The saved frames are source frames `0, |k|, 2|k|, ...` in that order. */
  lemma SavedAt<T>(frames: seq<T>, interval: int, maxFrames: Option<int>, j: nat)
    requires interval != 0 && j < |Saved(frames, interval, maxFrames)|
    ensures j * Abs(interval) < |frames|
    ensures Saved(frames, interval, maxFrames)[j] == frames[j * Abs(interval)]
  {
    SampledAt(frames, interval, j);
  }

  /** Conversely, source frame `i` is saved (as output number `i / |k|`)
      whenever `i % k == 0` and the cap has not been reached before it. */
  lemma SourceFrameSaved<T>(frames: seq<T>, interval: int, maxFrames: Option<int>, i: nat)
    requires interval != 0 && i < |frames| && i % interval == 0
    requires HasCap(maxFrames) ==> i / Abs(interval) < CapLimit(maxFrames)
    ensures i / Abs(interval) < |Saved(frames, interval, maxFrames)|
    ensures Saved(frames, interval, maxFrames)[i / Abs(interval)] == frames[i]
  {
    var m := Abs(interval);
    ModZeroMultiple(i, interval);
    SampledLength(frames[..i + 1], interval);
    CeilDivOfMultiple(i / m, m);
    SampledPrefix(frames, interval, i + 1);
    SampledAt(frames, interval, i / m);
  }

  /** The loop never reads past the end of the video, and with a cap below
      the natural count it stops before the video is exhausted. */
  lemma FramesReadBounds(total: nat, interval: int, maxFrames: Option<int>)
    requires interval != 0
    ensures FramesRead(total, interval, maxFrames) <= total
    ensures !CapReached(total, interval, maxFrames) ==> FramesRead(total, interval, maxFrames) == total
    ensures HasCap(maxFrames) && CapLimit(maxFrames) < CeilDiv(total, Abs(interval))
            ==> FramesRead(total, interval, maxFrames) < total
  {
    var m := Abs(interval);
    CeilDivBounds(total, m);
    if CapReached(total, interval, maxFrames) {
      var l, c := CapLimit(maxFrames), CeilDiv(total, m);
      MulMono(l - 1, c - 1, m);
      if l < c {
        MulMono(l, c - 1, m);
        assert (l - 1) * m + m == l * m;
      }
    }
  }

  // ---------------------------------------------------------------------
  // Output names

  /** The output files are exactly `frame_000000.jpg` .. `FrameName(K - 1)`
      for `K` saved frames, the `j`-th holding the `j`-th saved frame. */
  lemma {:induction false} NumberedContents<T>(saved: seq<T>)
    ensures Numbered(saved).Keys == NameRange(|saved|)
    ensures forall j :: 0 <= j < |saved| ==> Numbered(saved)[FrameName(j)] == saved[j]
  {
    if saved != [] {
      var n := |saved| - 1;
      var front := saved[..n];
      NumberedContents(front);
      FrameNamesDistinct();
      assert NameRange(n + 1) == NameRange(n) + {FrameName(n)};
      forall j | 0 <= j < |saved|
        ensures Numbered(saved)[FrameName(j)] == saved[j]
      {
        if j < n {
          assert FrameName(j) != FrameName(n);
          assert front[j] == saved[j];
        }
      }
    }
  }

  /** No two saved frames share a file: `K` saves make `K` files. */
  lemma {:induction false} NumberedSize<T>(saved: seq<T>)
    ensures |Numbered(saved)| == |saved|
  {
    if saved != [] {
      var n := |saved| - 1;
      NumberedSize(saved[..n]);
      NumberedContents(saved[..n]);
      if FrameName(n) in Numbered(saved[..n]) {
        var j :| 0 <= j < n && FrameName(j) == FrameName(n);
        FrameNameInjective(j, n);
      }
    }
  }

  // ---------------------------------------------------------------------
  // The printed estimate

  /** Python's `a // b` (rounds toward negative infinity). */
  function FloorDiv(a: int, b: int): int
    requires b != 0
  {
    if b > 0 then a / b else (-a) / (-b)
  }

  /** The "Estimated Output" figure: `total_frames // frame_interval`. */
  function PrintedEstimate(total: nat, interval: int): int
    requires interval != 0
  {
    FloorDiv(total, interval)
  }

  /** The figure the message means to give: the number of frames an uncapped
      run saves. */
  function CorrectedEstimate(total: nat, interval: int): nat
    requires interval != 0
  {
    CeilDiv(total, Abs(interval))
  }

  /** For a positive interval, the printed estimate is one short exactly when
      the interval does not divide the frame count. */
  lemma PrintedEstimateUndercounts(total: nat, interval: int)
    requires interval > 0
    ensures PrintedEstimate(total, interval)
            == CorrectedEstimate(total, interval) - (if total % interval == 0 then 0 else 1)
  {
    var q, r := total / interval, total % interval;
    assert total == q * interval + r;
    if r == 0 {
      DivIs(total + interval - 1, interval, q);
    } else {
      DivIs(total + interval - 1, interval, q + 1);
    }
  }

  /** With ten frames and an interval of three, the printed estimate is 3 but
      four frames (0, 3, 6, 9) are saved. */
  lemma PrintedEstimateExample<T>(frames: seq<T>)
    requires |frames| == 10
    ensures PrintedEstimate(|frames|, 3) == 3
    ensures |Saved(frames, 3, None)| == 4
  {
    SampledLength(frames, 3);
  }

  /** The corrected estimate is exactly the number of files an uncapped run
      writes. */
  lemma CorrectedEstimateExact<T>(frames: seq<T>, interval: int)
    requires interval != 0
    ensures |Numbered(Saved(frames, interval, None))| == CorrectedEstimate(|frames|, interval)
  {
    SampledLength(frames, interval);
    NumberedSize(Saved(frames, interval, None));
  }

  // ---------------------------------------------------------------------
  // Steps of the loop

  /** Writing the next saved frame under the next name extends the
      numbered files by one. */
  lemma NumberedSnoc<T>(listing: Listing<T>, kept: seq<T>, frame: T)
    ensures (listing + Numbered(kept))[FrameName(|kept|) := frame] == listing + Numbered(kept + [frame])
  {
    assert (kept + [frame])[..|kept|] == kept;
    assert Numbered(kept + [frame]) == Numbered(kept)[FrameName(|kept|) := frame];
    MergeThenWrite(listing, Numbered(kept), FrameName(|kept|), frame);
  }

  /** Leaving at the end of the video: nothing was cut off by the cap. */
  lemma EndOfVideo<T>(frames: seq<T>, interval: int, maxFrames: Option<int>)
    requires interval != 0
    requires HasCap(maxFrames) ==> |Sampled(frames, interval)| < CapLimit(maxFrames)
    ensures Saved(frames, interval, maxFrames) == Sampled(frames, interval)
    ensures FramesRead(|frames|, interval, maxFrames) == |frames|
  {
    SampledLength(frames, interval);
  }

  /** Leaving on the cap right after saving source frame `c`: what was kept
      is the capped output and `c + 1` frames were read. */
  lemma CapExit<T>(frames: seq<T>, interval: int, maxFrames: Option<int>, c: nat)
    requires interval != 0 && c < |frames| && c % interval == 0
    requires HasCap(maxFrames) && |Sampled(frames[..c + 1], interval)| == CapLimit(maxFrames)
    ensures Sampled(frames[..c + 1], interval) == Saved(frames, interval, maxFrames)
    ensures c + 1 == FramesRead(|frames|, interval, maxFrames)
  {
    var m := Abs(interval);
    SampledPrefix(frames, interval, c + 1);
    SampledLength(frames[..c + 1], interval);
    SampledLength(frames, interval);
    ModZeroMultiple(c, interval);
    CeilDivOfMultiple(c / m, m);
  }

  // ---------------------------------------------------------------------
  // The function itself

  /** Lines 60-86: the read/save loop, on a video that opened with a usable
      interval, writing into the (already created) output directory. */
  method SaveFrames<T>(fs: FileSystem<T>, frames: seq<T>, outputDir: string,
                       interval: int, maxFrames: Option<int>)
    returns (savedCount: nat, position: nat)
    requires interval != 0 && outputDir in fs.dirs
    modifies fs
    ensures savedCount == |Saved(frames, interval, maxFrames)|
    ensures position == FramesRead(|frames|, interval, maxFrames)
    ensures fs.dirs == old(fs.dirs)[outputDir := old(fs.dirs)[outputDir] + Numbered(Saved(frames, interval, maxFrames))]
  {
    ghost var before := fs.dirs;
    var listing := fs.dirs[outputDir];
    position := 0;  // the decoder's read position
    var frameCount: nat := 0;
    savedCount := 0;
    ghost var kept: seq<T> := [];
    assert frames[..frameCount] == [];
    assert listing + Numbered(kept) == listing;
    assert before[outputDir := listing] == before;
    while true
      invariant position == frameCount <= |frames|
      invariant kept == Sampled(frames[..frameCount], interval)
      invariant savedCount == |kept|
      invariant HasCap(maxFrames) ==> savedCount < CapLimit(maxFrames)
      invariant fs.dirs == before[outputDir := listing + Numbered(kept)]
      decreases |frames| - frameCount
    {
      if position == |frames| {  // video.read() fails at the end of the stream
        assert frames[..frameCount] == frames;
        EndOfVideo(frames, interval, maxFrames);
        break;
      }
      var frame := frames[position];
      position := position + 1;
      if frameCount % interval == 0 {
        assert kept + [frame] == Sampled(frames[..frameCount + 1], interval) by {
          SampledSnoc(frames, frameCount, interval);
        }
        NumberedSnoc(listing, kept, frame);
        var frameName := FrameName(savedCount);
        fs.WriteFile(outputDir, frameName, frame);
        RewriteEntry(before, outputDir, listing + Numbered(kept), listing + Numbered(kept + [frame]));
        savedCount := savedCount + 1;
        kept := kept + [frame];
        if maxFrames.Some? && maxFrames.value != 0 && savedCount >= maxFrames.value {
          CapExit(frames, interval, maxFrames, frameCount);
          break;
        }
      } else {
        assert kept == Sampled(frames[..frameCount + 1], interval) by {
          SampledSnoc(frames, frameCount, interval);
        }
      }
      frameCount := frameCount + 1;
    }
  }

  /** `extract_frames`: the validation exits, then the loop. */
  method ExtractFrames<T>(fs: FileSystem<T>, video: Video<T>, outputDir: string,
                          interval: int, maxFrames: Option<int>)
    returns (outcome: Outcome)
    modifies fs
    ensures video.Missing? ==> outcome == VideoNotFound && fs.dirs == old(fs.dirs)
    ensures video.Unopenable? ==> outcome == OpenFailed && fs.dirs == Created(old(fs.dirs), outputDir)
    ensures video.Opened? && video.fpsIsZero ==>
              outcome == InvalidFps && fs.dirs == Created(old(fs.dirs), outputDir)
    ensures video.Opened? && !video.fpsIsZero && interval == 0 ==>
              outcome == ZeroInterval && fs.dirs == Created(old(fs.dirs), outputDir)
    ensures video.Opened? && !video.fpsIsZero && interval != 0 ==>
              var saved := Saved(video.frames, interval, maxFrames);
              && outcome == Extracted(|saved|, FramesRead(|video.frames|, interval, maxFrames))
              && fs.dirs == old(fs.dirs)[outputDir := ListingOf(old(fs.dirs), outputDir) + Numbered(saved)]
  {
    if video.Missing? {
      return VideoNotFound;
    }
    fs.MakeDirs(outputDir);
    if video.Unopenable? {
      return OpenFailed;
    }
    if video.fpsIsZero {
      return InvalidFps;
    }
    if interval == 0 {
      return ZeroInterval;
    }
    var saved, read := SaveFrames(fs, video.frames, outputDir, interval, maxFrames);
    outcome := Extracted(saved, read);
  }
}
