/** The frame sampler (`extract_frames`): picks `n` evenly spaced seek
    positions inside a video after trimming a head and a tail segment.
    Decoding and resizing the frames at those positions is not modelled; the
    result is the sequence of positions the sampler seeks to, in order. */
module FrameSampler {
  import opened Outcomes
  import opened Arith

  /** Why the sampler gives up. */
  datatype SampleError =
    | SourceNotFound      // the video path does not exist
    | InvalidSampleCount  // n <= 0
    | InsufficientFrames  // n exceeds the frames left after trimming
    | ZeroStep            // n == 1: the step divides by n - 1 == 0 and raises

  /** Frames trimmed at each end per whole hundred frames of the video. */
  const TrimPerHundred: nat := 5

  /** Head (and tail) trim: `total // 100 * 5`, a multiple of 5 that is not
      5% of `total` unless `total` is a multiple of 100. */
  function Offset(total: nat): nat
  {
    total / 100 * TrimPerHundred
  }

  /** Frames left between the two trimmed segments. */
  function Usable(total: nat): (u: nat)
    ensures u + 2 * Offset(total) == total
  {
    total - 2 * Offset(total)
  }

  /** Distance between consecutive seek positions. */
  function Step(total: nat, n: nat): nat
    requires 2 <= n
  {
    Usable(total) / (n - 1)
  }

  /** The `i`-th seek position. */
  function Position(total: nat, n: nat, i: nat): nat
    requires 2 <= n
  {
    Offset(total) + i * Step(total, n)
  }

  /** The `n` seek positions `Offset, Offset + Step, ...`. */
  function Positions(total: nat, n: nat): seq<nat>
    requires 2 <= n
  {
    seq(n, i requires 0 <= i < n => Position(total, n, i))
  }

  /** What `extract_frames(path, n)` yields for a video with `total` frames. */
  function Sample(present: bool, total: nat, n: int): Result<seq<nat>, SampleError>
  {
    if !present then Err(SourceNotFound)
    else if n <= 0 then Err(InvalidSampleCount)
    else if n > Usable(total) then Err(InsufficientFrames)
    else if n == 1 then Err(ZeroStep)
    else Ok(Positions(total, n))
  }

  /** The sampler's loop: seeks to `pos`, records it and advances by the step. */
  method ExtractFrames(present: bool, total: nat, n: int) returns (r: Result<seq<nat>, SampleError>)
    ensures r == Sample(present, total, n)
    ensures r.Ok? <==> present && 2 <= n <= Usable(total)
    ensures r.Ok? ==> |r.value| == n && r.value[0] == Offset(total)
    ensures r.Ok? ==> forall i :: 0 <= i < |r.value| ==> r.value[i] <= total - Offset(total)
  {
    if !present {
      return Err(SourceNotFound);
    }
    if n <= 0 {
      return Err(InvalidSampleCount);
    }
    var offset := total / 100 * TrimPerHundred;
    var frameCount := total - offset * 2;
    assert offset == Offset(total) && frameCount == Usable(total);
    if n > frameCount {
      return Err(InsufficientFrames);
    }
    if n - 1 == 0 {
      return Err(ZeroStep);
    }
    var step := frameCount / (n - 1);
    var pos := offset;
    var frames: seq<nat> := [];
    for i := 0 to n
      invariant pos == Position(total, n, i)
      invariant frames == Positions(total, n)[..i]
    {
      frames := frames + [pos];
      NextPosition(total, n, i);
      pos := pos + step;
    }
    assert frames == Positions(total, n);
    PositionsBounded(total, n);
    return Ok(frames);
  }

  /** Consecutive positions are one step apart. */
  lemma NextPosition(total: nat, n: nat, i: nat)
    requires 2 <= n
    ensures Position(total, n, i + 1) == Position(total, n, i) + Step(total, n)
  {
  }

  /** With enough frames the step is at least one, so no two positions coincide. */
  lemma StepPositive(total: nat, n: nat)
    requires 2 <= n <= Usable(total)
    ensures Step(total, n) >= 1
  {
  }

  /** `(n - 1)` whole steps never go past the usable range. */
  lemma StepsFit(total: nat, n: nat)
    requires 2 <= n
    ensures (n - 1) * Step(total, n) <= Usable(total)
  {
  }

  /** Every position lies in `[Offset, total - Offset]`. */
  lemma PositionsBounded(total: nat, n: nat)
    requires 2 <= n
    ensures forall i :: 0 <= i < n ==> Offset(total) <= Positions(total, n)[i] <= total - Offset(total)
  {
    StepsFit(total, n);
    forall i | 0 <= i < n
      ensures Positions(total, n)[i] <= total - Offset(total)
    {
      MulMonotone(i, n - 1, Step(total, n));
    }
  }

  /** The positions start at the head trim, are evenly spaced by a positive
      step, strictly increase and end no later than `total - Offset`. */
  lemma PositionsShape(total: nat, n: nat)
    requires 2 <= n <= Usable(total)
    ensures |Positions(total, n)| == n
    ensures Positions(total, n)[0] == Offset(total)
    ensures Positions(total, n)[n - 1] <= total - Offset(total)
    ensures forall i :: 0 <= i < n - 1 ==> Positions(total, n)[i + 1] == Positions(total, n)[i] + Step(total, n)
    ensures forall i, j :: 0 <= i < j < n ==> Positions(total, n)[i] < Positions(total, n)[j]
  {
    var p, s := Positions(total, n), Step(total, n);
    StepPositive(total, n);
    PositionsBounded(total, n);
    forall i | 0 <= i < n - 1
      ensures p[i + 1] == p[i] + s
    {
      NextPosition(total, n, i);
    }
    forall i, j | 0 <= i < j < n
      ensures p[i] < p[j]
    {
      MulMonotone(i + 1, j, s);
      assert (i + 1) * s == i * s + s;
    }
  }

  /** A video of at least 100 frames has a trim of at least 5, so every
      position is a valid frame index. */
  lemma PositionsInsideLongVideo(total: nat, n: nat)
    requires 100 <= total
    requires 2 <= n <= Usable(total)
    ensures forall i :: 0 <= i < n ==> Positions(total, n)[i] < total
  {
    PositionsBounded(total, n);
  }

  /** Only the last seek can reach index `total`, one past the last frame,
      and it does exactly when nothing is trimmed (fewer than 100 frames) and
      `n - 1` divides `total`. */
  lemma SeekLandsOnTotal(total: nat, n: nat)
    requires 2 <= n <= Usable(total)
    ensures forall i :: 0 <= i < n - 1 ==> Positions(total, n)[i] < total
    ensures Positions(total, n)[n - 1] == total <==> total < 100 && total % (n - 1) == 0
  {
    var d, s := n - 1, Step(total, n);
    PositionsShape(total, n);
    StepsFit(total, n);
    assert Positions(total, n)[d] == Offset(total) + d * s;
    assert Usable(total) == d * s + Usable(total) % d;
  }

  /** With 50 frames and `n == 2` the sampler seeks to 0 and 50; with 30
      frames and the pass's own request of 16 it also ends on index 30. */
  lemma ShortVideoSeeksPastEnd()
    ensures Sample(true, 50, 2) == Ok([0, 50])
    ensures Sample(true, 30, 16).Ok? && Sample(true, 30, 16).value[15] == 30
  {
    assert Offset(50) == 0 && Step(50, 2) == 50;
    assert Positions(50, 2) == [0, 50];
    assert Offset(30) == 0 && Usable(30) == 30 && Step(30, 16) == 2;
    assert Positions(30, 16)[15] == Position(30, 16, 15) == 30;
  }

  /** 100 frames, 16 samples: trim 5, 90 usable, step 6, positions 5, 11, ..., 95. */
  lemma HundredFramesSixteenSamples()
    ensures Offset(100) == 5 && Usable(100) == 90 && Step(100, 16) == 6
    ensures Sample(true, 100, 16) == Ok(seq(16, i requires 0 <= i < 16 => 5 + 6 * i))
    ensures Sample(true, 100, 16).value[15] == 95
  {
    assert Step(100, 16) == 6;
    assert Positions(100, 16) == seq(16, i requires 0 <= i < 16 => 5 + 6 * i);
  }

  /** The guards: the sampler fails exactly when the file is missing, `n` is
      not positive, `n` exceeds the usable frames, or `n == 1` (the division
      by zero); a request for more frames than remain is refused before any
      position is computed. */
  lemma SampleFailures(present: bool, total: nat, n: int)
    ensures Sample(present, total, n).Err? <==> !present || n <= 0 || n > Usable(total) || n == 1
    ensures present && n > Usable(total) && n > 0 ==> Sample(present, total, n) == Err(InsufficientFrames)
    ensures present && n == 1 && Usable(total) >= 1 ==> Sample(present, total, n) == Err(ZeroStep)
  {
  }
}
