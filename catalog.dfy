/** The catalog pass (`data_processing`): for each video path in input
    order, sample frames, build the grid, and append one record when both
    succeed. The sampler, the grid builder, the name and image-path
    derivation and the id generator are parameters; reading the catalog,
    writing images and serialising the records are not modelled. */
module Catalog {
  import opened Outcomes
  import FrameSampler
  import GridResolver

  /** Frames sampled from every video. */
  const SampleCount: nat := 16

  /** Columns requested for every grid. */
  const GridColumns: nat := 4

  /** One output record: generated id, video base name without extension,
      and the normalised path of the preview image beside the video. */
  datatype Entry = Entry(id: string, name: string, image: string)

  /** Both stages succeed for path `p`. */
  predicate Succeeds<P, B, G>(p: P, sample: P -> Option<B>, grid: B -> Option<G>)
  {
    sample(p).Some? && grid(sample(p).value).Some?
  }

  /** The paths, in input order, that yield a record. */
  function Processed<P, B, G>(paths: seq<P>, sample: P -> Option<B>, grid: B -> Option<G>): seq<P>
  {
    if paths == [] then []
    else
      var last := paths[|paths| - 1];
      Processed(paths[..|paths| - 1], sample, grid) + (if Succeeds(last, sample, grid) then [last] else [])
  }

  /** The records for the processed paths; the `k`-th record takes the
      `k`-th generated id. */
  function Records<P>(done: seq<P>, nameOf: P -> string, imageOf: P -> string, ids: nat -> string): seq<Entry>
  {
    seq(|done|, k requires 0 <= k < |done| => Entry(ids(k), nameOf(done[k]), imageOf(done[k])))
  }

  /** The per-path loop with its two `continue`s. */
  method DataProcessing<P, B, G>(
    paths: seq<P>,
    sample: P -> Option<B>,
    grid: B -> Option<G>,
    nameOf: P -> string,
    imageOf: P -> string,
    ids: nat -> string
  ) returns (out: seq<Entry>)
    ensures out == Records(Processed(paths, sample, grid), nameOf, imageOf, ids)
    ensures |out| <= |paths|
  {
    out := [];
    for i := 0 to |paths|
      invariant out == Records(Processed(paths[..i], sample, grid), nameOf, imageOf, ids)
    {
      assert paths[..i + 1][..i] == paths[..i];
      var path := paths[i];
      var frames := sample(path);
      if frames.None? {
        continue;
      }
      var frameGrid := grid(frames.value);
      if frameGrid.None? {
        continue;
      }
      out := out + [Entry(ids(|out|), nameOf(path), imageOf(path))];
    }
    assert paths[..|paths|] == paths;
    ProcessedBounds(paths, sample, grid);
  }

  /** At most one record per path; every processed path is an input path
      for which both stages succeed. */
  lemma {:induction false} ProcessedBounds<P, B, G>(paths: seq<P>, sample: P -> Option<B>, grid: B -> Option<G>)
    ensures |Processed(paths, sample, grid)| <= |paths|
    ensures forall p :: p in Processed(paths, sample, grid) ==> p in paths && Succeeds(p, sample, grid)
    decreases |paths|
  {
    if paths != [] {
      var front := paths[..|paths| - 1];
      ProcessedBounds(front, sample, grid);
      assert forall p :: p in front ==> p in paths;
    }
  }

  /** Every input path for which both stages succeed gets a record. */
  lemma {:induction false} ProcessedComplete<P, B, G>(paths: seq<P>, sample: P -> Option<B>, grid: B -> Option<G>)
    ensures forall p :: p in paths && Succeeds(p, sample, grid) ==> p in Processed(paths, sample, grid)
    decreases |paths|
  {
    if paths != [] {
      var front := paths[..|paths| - 1];
      ProcessedComplete(front, sample, grid);
      assert paths == front + [paths[|paths| - 1]];
    }
  }

  /** Filtering respects concatenation, so records keep input order: the
      records of `a + b` are those of `a` followed by those of `b`. */
  lemma {:induction false} ProcessedAppend<P, B, G>(a: seq<P>, b: seq<P>, sample: P -> Option<B>, grid: B -> Option<G>)
    ensures Processed(a + b, sample, grid) == Processed(a, sample, grid) + Processed(b, sample, grid)
    decreases |b|
  {
    if b == [] {
      assert a + b == a;
    } else {
      var front := b[..|b| - 1];
      ProcessedAppend(a, front, sample, grid);
      assert (a + b)[..|a + b| - 1] == a + front;
    }
  }

  /** A path that succeeds is kept and one that fails is dropped. */
  lemma ProcessedSingle<P, B, G>(p: P, sample: P -> Option<B>, grid: B -> Option<G>)
    ensures Processed([p], sample, grid) == if Succeeds(p, sample, grid) then [p] else []
  {
    assert [p][..0] == [];
  }

  /** Three paths of which the second fails give two records, for the
      first and the third path, in that order. */
  lemma MiddlePathSkipped<P, B, G>(p1: P, p2: P, p3: P, sample: P -> Option<B>, grid: B -> Option<G>,
                                   nameOf: P -> string, imageOf: P -> string, ids: nat -> string)
    requires Succeeds(p1, sample, grid) && !Succeeds(p2, sample, grid) && Succeeds(p3, sample, grid)
    ensures Processed([p1, p2, p3], sample, grid) == [p1, p3]
    ensures Records(Processed([p1, p2, p3], sample, grid), nameOf, imageOf, ids)
            == [Entry(ids(0), nameOf(p1), imageOf(p1)), Entry(ids(1), nameOf(p3), imageOf(p3))]
  {
    ProcessedSingle(p1, sample, grid);
    ProcessedSingle(p2, sample, grid);
    ProcessedSingle(p3, sample, grid);
    ProcessedAppend([p1], [p2], sample, grid);
    ProcessedAppend([p1, p2], [p3], sample, grid);
    assert [p1] + [p2] == [p1, p2];
    assert [p1, p2] + [p3] == [p1, p2, p3];
  }

  /** With the fixed request of 16 frames the sampler never reaches the
      division by zero, and it succeeds exactly when the file exists and at
      least 16 frames remain after trimming. */
  lemma DefaultSampleCount(present: bool, total: nat)
    ensures FrameSampler.Sample(present, total, SampleCount).Ok?
            <==> present && SampleCount <= FrameSampler.Usable(total)
    ensures FrameSampler.Sample(present, total, SampleCount) != Err(FrameSampler.ZeroStep)
  {
  }

  /** Whenever the sampler succeeds with 16 frames, the grid with 4
      columns succeeds too and is 4 rows of 4 consecutive frames: the
      grid stage never skips a path in this pass. */
  lemma DefaultGridAlwaysSquare<T>(frames: seq<T>)
    requires |frames| == SampleCount
    ensures GridResolver.FrameGrid(frames, GridColumns).Ok?
    ensures var rows := GridResolver.FrameGrid(frames, GridColumns).value;
            |rows| == 4 && forall k :: 0 <= k < 4 ==> rows[k] == frames[4 * k..4 * k + 4]
  {
    var rows := GridResolver.Rows(frames, 4);
    GridResolver.RowCount(frames, 4);
    forall k | 0 <= k < 4
      ensures rows[k] == frames[4 * k..4 * k + 4]
    {
      GridResolver.RowAt(frames, 4, k);
    }
  }
}
