/** The grid resolver (`create_frame_grid`): settles on a column count that
    tiles the frames evenly when one is near the requested count, then cuts
    the frames into rows of that many. Frames are an opaque element type and
    the grid is its sequence of rows; joining pixels is not modelled. */
module GridResolver {
  import opened Outcomes
  import opened Arith

  /** Why the resolver gives up. */
  datatype GridError =
    | InvalidColumnCount  // requested columns <= 0
    | TooManyColumns      // requested columns exceed the number of frames

  /** The upward scan covers `c .. c + SearchRadius - 1`; `c + SearchRadius`
      is its default when nothing there divides the frame count. */
  const SearchRadius: nat := 10

  /** Last value of the downward scan, and its default. */
  const MinColumns: nat := 1

  predicate Divides(v: int, len: nat)
  {
    v > 0 && len % v == 0
  }

  function Dist(a: int, b: int): nat
  {
    if a < b then b - a else a - b
  }

  /** The upward scan over `lo .. hi - 1`: the first value that divides
      `len`, or `hi` when none does. */
  function ScanUp(len: nat, lo: int, hi: int): (r: int)
    requires 1 <= lo <= hi
    ensures lo <= r <= hi
    ensures r < hi ==> Divides(r, len)
    ensures forall v :: lo <= v < r ==> !Divides(v, len)
    decreases hi - lo
  {
    if lo == hi then hi
    else if len % lo == 0 then lo
    else ScanUp(len, lo + 1, hi)
  }

  /** The downward scan over `hi, hi - 1, ..., 1`: the first value that
      divides `len`, or `MinColumns` when the range is empty. */
  function ScanDown(len: nat, hi: int): (r: int)
    requires 0 <= hi
    ensures 1 <= r
    ensures 1 <= hi ==> r <= hi && Divides(r, len)
    ensures forall v :: r < v <= hi ==> !Divides(v, len)
    decreases hi
  {
    if hi == 0 then MinColumns
    else if len % hi == 0 then hi
    else ScanDown(len, hi - 1)
  }

  /** No value within `SearchRadius - 1` of `c` divides `len`. */
  predicate NoDivisorNear(len: nat, c: int)
  {
    forall v :: c - (SearchRadius - 1) <= v <= c + (SearchRadius - 1) ==> !Divides(v, len)
  }

  /** The column count the resolver settles on for `len` frames and a
      request of `c` columns: `c` itself when it tiles evenly, otherwise the
      nearer of the two scans' results, the upper one on a tie. The result
      is at most `len`, never more than `SearchRadius - 1` below `c` nor more
      than `SearchRadius` above it; it keeps `c` when `c` divides `len`; it
      is the upward default `c + SearchRadius` exactly when no divisor lies
      within `SearchRadius - 1` of `c`, and otherwise divides `len`; and no
      divisor below `c + SearchRadius` is nearer to `c`, nor as near and
      higher. */
  function ResolveColumns(len: nat, c: int): (r: int)
    requires 1 <= c <= len
    ensures 1 <= r <= len
    ensures c - (SearchRadius - 1) <= r <= c + SearchRadius
    ensures len % c == 0 ==> r == c
    ensures r == c + SearchRadius <==> NoDivisorNear(len, c)
    ensures r != c + SearchRadius ==> Divides(r, len)
    ensures forall v :: 1 <= v < c + SearchRadius && Divides(v, len) ==>
              Dist(r, c) < Dist(v, c) || (Dist(r, c) == Dist(v, c) && v <= r)
  {
    if len % c == 0 then assert Divides(c, len); c
    else
      var more := ScanUp(len, c, c + SearchRadius);
      var less := ScanDown(len, c);
      assert Divides(len, len);
      if more - c <= c - less then more else less
  }

  /** The frames cut into consecutive rows of `w`; a shorter remainder is
      dropped, as `len // w` rows are made. */
  function Rows<T>(frames: seq<T>, w: nat): seq<seq<T>>
    requires 1 <= w
    decreases |frames|
  {
    if |frames| < w then [] else [frames[..w]] + Rows(frames[w..], w)
  }

  function Flatten<T>(rows: seq<seq<T>>): seq<T>
  {
    if rows == [] then [] else rows[0] + Flatten(rows[1..])
  }

  /** What `create_frame_grid(frames, c)` yields, as rows of frames. */
  function FrameGrid<T>(frames: seq<T>, c: int): Result<seq<seq<T>>, GridError>
  {
    if c <= 0 then Err(InvalidColumnCount)
    else if c > |frames| then Err(TooManyColumns)
    else Ok(Rows(frames, ResolveColumns(|frames|, c)))
  }

  /** `Rows` makes `len // w` rows. */
  lemma {:induction false} RowCount<T>(frames: seq<T>, w: nat)
    requires 1 <= w
    ensures |Rows(frames, w)| == |frames| / w
  {
    RowCountBounds(frames, w);
    DivUnique(|frames|, w, |Rows(frames, w)|);
  }

  lemma {:induction false} RowCountBounds<T>(frames: seq<T>, w: nat)
    requires 1 <= w
    ensures |Rows(frames, w)| * w <= |frames| < |Rows(frames, w)| * w + w
    decreases |frames|
  {
    if |frames| >= w {
      RowCountBounds(frames[w..], w);
      var n := |Rows(frames[w..], w)|;
      assert (n + 1) * w == n * w + w;
    }
  }

  /** Row `k` is `frames[k*w .. (k+1)*w]`, in order. */
  lemma {:induction false} RowAt<T>(frames: seq<T>, w: nat, k: nat)
    requires 1 <= w
    requires k < |Rows(frames, w)|
    ensures (k + 1) * w <= |frames|
    ensures Rows(frames, w)[k] == frames[k * w..(k + 1) * w]
    decreases k
  {
    if k > 0 {
      var rest := frames[w..];
      RowAt(rest, w, k - 1);
      assert k * w == (k - 1) * w + w;
      assert (k + 1) * w == k * w + w;
      assert Rows(frames, w)[k] == Rows(rest, w)[k - 1];
    }
  }

  /** Joining the rows back gives the first `(len // w) * w` frames in
      order; when `w` divides `len` that is every frame. */
  lemma FlattenRows<T>(frames: seq<T>, w: nat)
    requires 1 <= w
    ensures Flatten(Rows(frames, w)) == frames[..|frames| / w * w]
    ensures |frames| % w == 0 ==> Flatten(Rows(frames, w)) == frames
  {
    var n := |Rows(frames, w)|;
    FlattenRowsPrefix(frames, w);
    RowCount(frames, w);
    assert |frames| / w * w == n * w;
    if |frames| % w == 0 {
      assert |frames| == w * n + |frames| % w;
      assert frames[..n * w] == frames;
    }
  }

  lemma {:induction false} FlattenRowsPrefix<T>(frames: seq<T>, w: nat)
    requires 1 <= w
    ensures |Rows(frames, w)| * w <= |frames|
    ensures Flatten(Rows(frames, w)) == frames[..|Rows(frames, w)| * w]
    decreases |frames|
  {
    RowCountBounds(frames, w);
    if |frames| >= w {
      var rest := frames[w..];
      FlattenRowsPrefix(rest, w);
      var n := |Rows(rest, w)|;
      assert (n + 1) * w == w + n * w;
      assert frames[..(n + 1) * w] == frames[..w] + rest[..n * w];
    }
  }

  /** Every row has exactly `w` frames. */
  lemma {:induction false} RowsWidth<T>(frames: seq<T>, w: nat)
    requires 1 <= w
    ensures forall row :: row in Rows(frames, w) ==> |row| == w
    decreases |frames|
  {
    if |frames| >= w {
      RowsWidth(frames[w..], w);
    }
  }

  /** The resolver's steps: the two guards, the column resolution and the
      row slicing. */
  method CreateFrameGrid<T>(frames: seq<T>, c: int) returns (r: Result<seq<seq<T>>, GridError>)
    ensures r == FrameGrid(frames, c)
    ensures r.Err? <==> c <= 0 || c > |frames|
    ensures r.Ok? ==> |r.value| == |frames| / ResolveColumns(|frames|, c) >= 1
  {
    if c <= 0 {
      return Err(InvalidColumnCount);
    }
    if c > |frames| {
      return Err(TooManyColumns);
    }
    var cols := ChooseColumns(|frames|, c);
    var rows := SliceRows(frames, cols);
    RowCount(frames, cols);
    RowCountBounds(frames, cols);
    return Ok(rows);
  }

  /** The column resolution: keep `c` when it tiles evenly, otherwise run
      the two break-terminated scans and take the nearer result. */
  method ChooseColumns(len: nat, c: int) returns (cols: int)
    requires 1 <= c <= len
    ensures cols == ResolveColumns(len, c)
  {
    cols := c;
    if len % cols != 0 {
      var maxCols := cols + SearchRadius;
      var minCols := MinColumns;
      var more := maxCols;
      var less := minCols;
      var v := cols;
      while v < maxCols
        invariant cols <= v <= maxCols
        invariant more == maxCols
        invariant ScanUp(len, v, maxCols) == ScanUp(len, cols, maxCols)
      {
        if len % v == 0 {
          more := v;
          break;
        }
        v := v + 1;
      }
      v := cols;
      while v >= minCols
        invariant 0 <= v <= cols
        invariant less == MinColumns
        invariant ScanDown(len, v) == ScanDown(len, cols)
      {
        if len % v == 0 {
          less := v;
          break;
        }
        v := v - 1;
      }
      if more - cols <= cols - less {
        cols := more;
      } else {
        cols := less;
      }
    }
  }

  /** The row loop: `len // w` slices of `w` frames, advancing both ends by
      `w` each time. */
  method SliceRows<T>(frames: seq<T>, w: nat) returns (rows: seq<seq<T>>)
    requires 1 <= w
    ensures rows == Rows(frames, w)
  {
    var rowsCount := |frames| / w;
    var start, end := 0, w;
    rows := [];
    RowCount(frames, w);
    for row := 0 to rowsCount
      invariant 0 <= start && start == row * w && end == start + w
      invariant |rows| == row
      invariant forall k :: 0 <= k < row ==> rows[k] == Rows(frames, w)[k]
    {
      RowAt(frames, w, row);
      assert (row + 1) * w == end;
      rows := rows + [frames[start..end]];
      start := start + w;
      end := end + w;
    }
  }

  /** 18 frames, 5 columns requested: the upward scan finds 6 (distance 1),
      the downward scan 3 (distance 2), and 6 is taken. */
  lemma EighteenFramesFiveColumns()
    ensures ResolveColumns(18, 5) == 6
  {
    assert ScanUp(18, 5, 15) == 6;
  }

  /** A tie goes to the higher count: 12 frames, 5 columns requested, and
      both 4 and 6 are at distance 1. */
  lemma TieGoesHigher()
    ensures ResolveColumns(12, 5) == 6
  {
    assert ScanUp(12, 5, 15) == 6;
  }

  /** With 23 frames and 11 columns requested nothing within 9 of 11
      divides 23, so the default 21 is used: one row of 21 frames, and the
      last two frames are left out of the grid. */
  lemma FallbackDropsFrames<T>(frames: seq<T>)
    requires |frames| == 23
    ensures ResolveColumns(23, 11) == 21
    ensures FrameGrid(frames, 11) == Ok([frames[..21]])
  {
    assert !Divides(11, 23);
    assert ScanUp(23, 11, 21) == 21;
    assert ScanDown(23, 11) == 1;
    assert |frames[21..]| < 21;
    assert Rows(frames[21..], 21) == [];
    assert Rows(frames, 21) == [frames[..21]];
    assert FrameGrid(frames, 11) == Ok(Rows(frames, 21));
  }

  /** Whenever some column count within 9 of the request divides the frame
      count, the grid holds every frame exactly once, in order. */
  lemma GridKeepsAllFrames<T>(frames: seq<T>, c: int)
    requires 1 <= c <= |frames|
    requires !NoDivisorNear(|frames|, c)
    ensures FrameGrid(frames, c).Ok?
    ensures Flatten(FrameGrid(frames, c).value) == frames
    ensures forall row :: row in FrameGrid(frames, c).value ==> |row| == ResolveColumns(|frames|, c)
  {
    var w := ResolveColumns(|frames|, c);
    FlattenRows(frames, w);
    RowsWidth(frames, w);
  }

  /** When no divisor lies within 9 of the request, the grid uses
      `c + SearchRadius` columns and holds the first
      `(len // (c + SearchRadius)) * (c + SearchRadius)` frames in order:
      all of them exactly when `c + SearchRadius` divides `len`. */
  lemma FallbackGrid<T>(frames: seq<T>, c: int)
    requires 1 <= c <= |frames|
    requires NoDivisorNear(|frames|, c)
    ensures FrameGrid(frames, c) == Ok(Rows(frames, c + SearchRadius))
    ensures var w := c + SearchRadius;
            Flatten(FrameGrid(frames, c).value) == frames[..|frames| / w * w]
    ensures Flatten(FrameGrid(frames, c).value) == frames <==> |frames| % (c + SearchRadius) == 0
  {
    var w := c + SearchRadius;
    var len := |frames|;
    assert ResolveColumns(len, c) == w;
    FlattenRows(frames, w);
    RowCount(frames, w);
    RowCountBounds(frames, w);
    var k := len / w * w;
    assert k <= len && |frames[..k]| == k;
    assert len == k + len % w;
  }

  /** 23 frames with 13 columns also fall back, to 23 columns, which
      divides 23: one row holding every frame. */
  lemma FallbackKeepsAllFrames<T>(frames: seq<T>)
    requires |frames| == 23
    ensures ResolveColumns(23, 13) == 23
    ensures FrameGrid(frames, 13) == Ok([frames])
  {
    assert ScanUp(23, 13, 23) == 23;
    assert Rows(frames[23..], 23) == [];
    assert frames[..23] == frames;
    assert Rows(frames, 23) == [frames];
  }
}
