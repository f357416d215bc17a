/**
 The displacement search of src/vision/frame_matrix.c: the brute-force loops return the optimum
 over every admissible offset, the earliest in scan order on ties.
 */
module Vision {
  import opened Bytes

  const UINT64_MAX: nat := 0xFFFF_FFFF_FFFF_FFFF

  datatype GrayFrame = GrayFrame(width: u32, height: u32, stride: u32, data: seq<byte>)

  /** valid_frame, with the buffer the caller owes: every row but the last may be padded. */
  predicate Valid(f: GrayFrame) {
    && f.width > 0 && f.height > 0 && f.stride >= f.width
    && (f.height - 1) * f.stride + f.width <= |f.data|
  }

  lemma PixelPlace(f: GrayFrame, x: nat, y: nat)
    requires Valid(f) && x < f.width && y < f.height
    ensures 0 <= y * f.stride + x < |f.data|
  {
    MulMonotone(f.stride, y, f.height - 1);
  }

  function Pixel(f: GrayFrame, x: nat, y: nat): (p: byte)
    requires Valid(f) && x < f.width && y < f.height
  {
    PixelPlace(f, x, y);
    f.data[y * f.stride + x]
  }

  function Abs(n: int): (a: nat) {
    if n < 0 then -n else n
  }

  // -------------------------------------------------------------------------
  // Offsets
  // -------------------------------------------------------------------------

  /** Two frames that can be compared. */
  predicate Pair(p: GrayFrame, c: GrayFrame) {
    Valid(p) && Valid(c) && p.width == c.width && p.height == c.height
  }

  /** The overlap is not empty and covers at least a quarter of each side. */
  predicate Admissible(width: nat, height: nat, dx: int, dy: int) {
    && Abs(dx) < width && Abs(dy) < height
    && width - Abs(dx) >= width / 4 && height - Abs(dy) >= height / 4
  }

  /** The columns and the rows that overlap are at least one, and a quarter of their number rounded down. */
  lemma OverlapRule(width: u32, height: u32, dx: int, dy: int)
    ensures var columns, rows := width - Abs(dx), height - Abs(dy);
            Admissible(width, height, dx, dy) <==>
            columns >= 1 && rows >= 1 && 4 * columns + 3 >= width && 4 * rows + 3 >= height
  {
  }

  function Low(d: int): (l: nat) {
    if d < 0 then -d else 0
  }

  function High(size: nat, d: int): (h: int) {
    if d > 0 then size - d else size
  }

  /** Absolute differences along part of one row. */
  function RowError(p: GrayFrame, c: GrayFrame, dx: int, dy: int, y: nat, x0: nat, x1: nat): (e: nat)
    requires Pair(p, c) && x0 <= x1 && Low(dx) <= x0 && x1 <= High(p.width, dx)
    requires Low(dy) <= y < High(p.height, dy)
    ensures e <= 255 * (x1 - x0)
    decreases x1
  {
    if x0 == x1 then 0
    else RowError(p, c, dx, dy, y, x0, x1 - 1) + Abs(Pixel(p, x1 - 1, y) - Pixel(c, x1 - 1 + dx, y + dy))
  }

  /** Absolute differences over part of the overlap's rows. */
  function RowsError(p: GrayFrame, c: GrayFrame, dx: int, dy: int, y0: nat, y1: nat): (e: nat)
    requires Pair(p, c) && y0 <= y1 && Low(dy) <= y0 && y1 <= High(p.height, dy)
    requires Low(dx) <= High(p.width, dx)
    decreases y1
  {
    if y0 == y1 then 0
    else RowsError(p, c, dx, dy, y0, y1 - 1) + RowError(p, c, dx, dy, y1 - 1, Low(dx), High(p.width, dx))
  }

  /** The sum of absolute differences over the overlap at an offset. */
  function Sad(p: GrayFrame, c: GrayFrame, dx: int, dy: int): (e: nat)
    requires Pair(p, c) && Admissible(p.width, p.height, dx, dy)
  {
    RowsError(p, c, dx, dy, Low(dy), High(p.height, dy))
  }

  lemma {:induction false} RowsBound(p: GrayFrame, c: GrayFrame, dx: int, dy: int, y0: nat, y1: nat)
    requires Pair(p, c) && y0 <= y1 && Low(dy) <= y0 && y1 <= High(p.height, dy)
    requires Low(dx) <= High(p.width, dx)
    ensures RowsError(p, c, dx, dy, y0, y1) <= 255 * p.width * (y1 - y0)
    decreases y1
  {
    if y0 < y1 {
      RowsBound(p, c, dx, dy, y0, y1 - 1);
      assert 255 * p.width * (y1 - y0) == 255 * p.width * (y1 - 1 - y0) + 255 * p.width;
    }
  }

  lemma SadBound(p: GrayFrame, c: GrayFrame, dx: int, dy: int)
    requires Pair(p, c) && Admissible(p.width, p.height, dx, dy)
    ensures Sad(p, c, dx, dy) <= 255 * p.width * p.height
  {
    var y0, y1 := Low(dy), High(p.height, dy);
    RowsBound(p, c, dx, dy, y0, y1);
    assert 255 * p.width * (y1 - y0) <= 255 * p.width * p.height by {
      MulMonotone(255 * p.width, y1 - y0, p.height);
    }
  }

  lemma MulMonotone(k: nat, a: int, b: int)
    requires a <= b
    ensures k * a <= k * b && a * k <= b * k
  {
    assert k * b == k * a + k * (b - a);
  }

  // -------------------------------------------------------------------------
  // The loops
  // -------------------------------------------------------------------------

  /** The two inner loops: one candidate. No partial sum ever leaves 64 bits. */
  method Measure(p: GrayFrame, c: GrayFrame, dx: int, dy: int) returns (error: u64)
    requires Pair(p, c) && Admissible(p.width, p.height, dx, dy)
    requires 255 * p.width * p.height < UINT64_MAX
    ensures error == Sad(p, c, dx, dy)
  {
    hide Pixel, RowError;
    var x0, x1, y0, y1 := Low(dx), High(p.width, dx), Low(dy), High(p.height, dy);
    error := 0;
    for y := y0 to y1
      invariant error == RowsError(p, c, dx, dy, y0, y)
    {
      RowsBound(p, c, dx, dy, y0, y);
      Room(p.width, p.height, y - y0);
      error := MeasureRow(p, c, dx, dy, y, error);
    }
  }

  lemma Room(width: nat, height: nat, rows: nat)
    requires rows < height
    ensures 255 * width * rows + 255 * width <= 255 * width * height
  {
    MulMonotone(255 * width, rows + 1, height);
    assert 255 * width * (rows + 1) == 255 * width * rows + 255 * width;
  }

  method MeasureRow(p: GrayFrame, c: GrayFrame, dx: int, dy: int, y: nat, start: u64) returns (error: u64)
    requires Pair(p, c) && Admissible(p.width, p.height, dx, dy) && Low(dy) <= y < High(p.height, dy)
    requires start as int + 255 * p.width < UINT64_MAX
    ensures error == start + RowError(p, c, dx, dy, y, Low(dx), High(p.width, dx))
  {
    hide Pixel, Valid;
    var x0, x1 := Low(dx), High(p.width, dx);
    error := start;
    for x := x0 to x1
      invariant error == start + RowError(p, c, dx, dy, y, x0, x)
    {
      var d := Pixel(p, x, y) - Pixel(c, x + dx, y + dy);
      error := error + if d < 0 then -d else d;
    }
  }

  /** Scan order: rows of offsets from top to bottom, each from left to right. */
  predicate Before(dx: int, dy: int, ex: int, ey: int) {
    dy < ey || (dy == ey && dx < ex)
  }

  datatype Offset = Offset(dx: int, dy: int, error: nat)

  predicate InWindow(maxDx: int, maxDy: int, dx: int, dy: int) {
    -maxDx <= dx <= maxDx && -maxDy <= dy <= maxDy
  }

  /** A candidate of the search. */
  predicate Candidate(p: GrayFrame, maxDx: int, maxDy: int, dx: int, dy: int) {
    InWindow(maxDx, maxDy, dx, dy) && Admissible(p.width, p.height, dx, dy)
  }

  /** The best candidate among those scanned before a position, the earliest of the best. */
  ghost predicate BestBefore(p: GrayFrame, c: GrayFrame, maxDx: int, maxDy: int, x: int, y: int, best: Option<Offset>)
    requires Pair(p, c)
  {
    match best
    case None => forall ex, ey :: Candidate(p, maxDx, maxDy, ex, ey) ==> !Before(ex, ey, x, y)
    case Some(b) =>
      && Candidate(p, maxDx, maxDy, b.dx, b.dy) && Before(b.dx, b.dy, x, y) && b.error == Sad(p, c, b.dx, b.dy)
      && forall ex, ey :: Candidate(p, maxDx, maxDy, ex, ey) && Before(ex, ey, x, y) ==>
           && b.error <= Sad(p, c, ex, ey)
           && (Sad(p, c, ex, ey) == b.error ==> !Before(ex, ey, b.dx, b.dy))
  }

  /** One more position scanned. */
  lemma BestStep(p: GrayFrame, c: GrayFrame, maxDx: int, maxDy: int, x: int, y: int, best: Option<Offset>,
                 next: Option<Offset>)
    requires Pair(p, c) && BestBefore(p, c, maxDx, maxDy, x, y, best)
    requires next == if Candidate(p, maxDx, maxDy, x, y) && (best.None? || Sad(p, c, x, y) < best.value.error)
                     then Some(Offset(x, y, Sad(p, c, x, y))) else best
    ensures BestBefore(p, c, maxDx, maxDy, x + 1, y, next)
  {
    hide Sad, Admissible;
  }

  /** Past the right edge of the window a row is finished. */
  lemma BestRow(p: GrayFrame, c: GrayFrame, maxDx: int, maxDy: int, y: int, best: Option<Offset>)
    requires Pair(p, c) && BestBefore(p, c, maxDx, maxDy, maxDx + 1, y, best)
    ensures BestBefore(p, c, maxDx, maxDy, -maxDx, y + 1, best)
  {
    hide Sad, Admissible;
  }

  /** The optimum over the whole window. */
  ghost predicate Optimal(p: GrayFrame, c: GrayFrame, maxDx: int, maxDy: int, b: Offset)
    requires Pair(p, c)
  {
    && Candidate(p, maxDx, maxDy, b.dx, b.dy) && b.error == Sad(p, c, b.dx, b.dy)
    && forall ex, ey :: Candidate(p, maxDx, maxDy, ex, ey) ==>
         && b.error <= Sad(p, c, ex, ey)
         && (Sad(p, c, ex, ey) == b.error ==> !Before(ex, ey, b.dx, b.dy))
  }

  /** Not moving at all is always a candidate, so something is always found. */
  lemma StandingStill(p: GrayFrame, maxDx: int, maxDy: int)
    requires Valid(p) && maxDx >= 0 && maxDy >= 0
    ensures Candidate(p, maxDx, maxDy, 0, 0)
  {
  }

  // -------------------------------------------------------------------------
  // The source's own test
  // -------------------------------------------------------------------------

  /** The end of the overlap as 32 bit unsigned arithmetic gives it. */
  function End32(size: u32, d: int): (h: u32) {
    if d > 0 then (size - d) % 0x1_0000_0000 else size
  }

  /** The test of the source for a candidate, in its own arithmetic. */
  predicate Passes(width: u32, height: u32, dx: int, dy: int) {
    var x0, x1, y0, y1 := Low(dx), End32(width, dx), Low(dy), End32(height, dy);
    !(x1 <= x0 || y1 <= y0 || x1 - x0 < width / 4 || y1 - y0 < height / 4)
  }

  /** Up to the size of the frame it is the overlap rule; beyond it never refuses what the rule allows. */
  lemma PassesExact(width: u32, height: u32, dx: i32, dy: i32)
    requires 0 < width && 0 < height
    ensures Admissible(width, height, dx, dy) ==> Passes(width, height, dx, dy)
    ensures dx <= width && dy <= height ==> (Passes(width, height, dx, dy) <==> Admissible(width, height, dx, dy))
  {
  }

  /** The test is the overlap rule for all offsets of a window exactly when the window is no larger
      than the frame; one step beyond, the unsigned subtraction wraps and a row of four thousand
      million columns passes. */
  lemma WindowExact(width: u32, height: u32, maxDx: i32, maxDy: i32)
    requires 0 < width && 0 < height && 0 <= maxDx && 0 <= maxDy
    ensures (forall dx, dy :: InWindow(maxDx, maxDy, dx, dy) ==>
               (Passes(width, height, dx, dy) <==> Admissible(width, height, dx, dy))) <==>
            maxDx <= width && maxDy <= height
  {
    hide Passes, Admissible;
    if maxDx > width || maxDy > height {
      WindowFails(width, height, maxDx, maxDy);
    } else {
      forall dx, dy | InWindow(maxDx, maxDy, dx, dy)
        ensures Passes(width, height, dx, dy) <==> Admissible(width, height, dx, dy)
      {
        PassesExact(width, height, dx, dy);
      }
    }
  }

  lemma WindowFails(width: u32, height: u32, maxDx: i32, maxDy: i32)
    requires 0 < width && 0 < height && 0 <= maxDx && 0 <= maxDy && (maxDx > width || maxDy > height)
    ensures exists dx, dy :: InWindow(maxDx, maxDy, dx, dy) && Passes(width, height, dx, dy)
                             && !Admissible(width, height, dx, dy)
  {
    if maxDx > width {
      assert InWindow(maxDx, maxDy, width + 1, 0) && Passes(width, height, width + 1, 0);
    } else {
      assert InWindow(maxDx, maxDy, 0, height + 1) && Passes(width, height, 0, height + 1);
    }
  }

  // -------------------------------------------------------------------------
  // The search
  // -------------------------------------------------------------------------

  /** More than any address space holds. */
  const MEMORY: nat := 0x100_0000_0000_0000

  lemma AreaFits(p: GrayFrame)
    requires Valid(p) && |p.data| < MEMORY
    ensures 255 * p.width * p.height < UINT64_MAX
  {
    MulMonotone(p.height - 1, p.width, p.stride);
    assert (p.height - 1) * p.width + p.width == p.width * p.height;
  }

  /** The pixels of a candidate that passes lie in the frames, and their columns fit an int. */
  predicate Readable(p: GrayFrame, dx: int, dy: int) {
    Passes(p.width, p.height, dx, dy) ==> Admissible(p.width, p.height, dx, dy) && High(p.width, dx) <= 0x8000_0000
  }

  lemma CandidateTest(p: GrayFrame, dx: i32, dy: i32)
    requires Valid(p)
    ensures Admissible(p.width, p.height, dx, dy) ==> Passes(p.width, p.height, dx, dy)
  {
    hide Passes, Admissible;
    PassesExact(p.width, p.height, dx, dy);
  }

  /** So are those of every candidate scanned before a position. */
  ghost predicate ReadableBefore(p: GrayFrame, maxDx: int, maxDy: int, x: int, y: int) {
    forall ex, ey :: InWindow(maxDx, maxDy, ex, ey) && Before(ex, ey, x, y) ==> Readable(p, ex, ey)
  }

  /** A window that makes the source read nothing but the frames. */
  predicate Fits(p: GrayFrame, maxDx: int, maxDy: int) {
    maxDx <= p.width && maxDy <= p.height && p.width <= 0x8000_0000
  }

  lemma ReadableStep(p: GrayFrame, maxDx: int, maxDy: int, x: int, y: int)
    requires ReadableBefore(p, maxDx, maxDy, x, y) && Readable(p, x, y)
    ensures ReadableBefore(p, maxDx, maxDy, x + 1, y)
  {
    hide Readable;
  }

  lemma ReadableRow(p: GrayFrame, maxDx: int, maxDy: int, y: int)
    requires ReadableBefore(p, maxDx, maxDy, maxDx + 1, y)
    ensures ReadableBefore(p, maxDx, maxDy, -maxDx, y + 1)
  {
    hide Readable;
  }

  /** All candidates are readable exactly when the window fits. */
  lemma FitsExact(p: GrayFrame, maxDx: i32, maxDy: i32)
    requires Valid(p) && maxDx >= 0 && maxDy >= 0
    ensures (forall dx, dy :: InWindow(maxDx, maxDy, dx, dy) ==> Readable(p, dx, dy)) <==> Fits(p, maxDx, maxDy)
  {
    hide Passes, Admissible;
    if Fits(p, maxDx, maxDy) {
      forall dx, dy | InWindow(maxDx, maxDy, dx, dy)
        ensures Readable(p, dx, dy)
      {
        PassesExact(p.width, p.height, dx, dy);
      }
    } else if maxDx > p.width || maxDy > p.height {
      WindowFails(p.width, p.height, maxDx, maxDy);
    } else {
      StandingStill(p, maxDx, maxDy);
      PassesExact(p.width, p.height, 0, 0);
      assert InWindow(maxDx, maxDy, 0, 0) && !Readable(p, 0, 0);
    }
  }

  datatype Estimate = Refused | Outside | Best(offset: Offset)

  /** vision_estimate_offset: refused exactly for unusable input, and Outside exactly when the source
      would read outside the frames, of which no more is said; otherwise the optimum. */
  method EstimateOffset(p: GrayFrame, c: GrayFrame, maxDx: i32, maxDy: i32) returns (r: Estimate)
    requires |p.data| < MEMORY
    ensures r.Refused? <==> !Pair(p, c) || maxDx < 0 || maxDy < 0
    ensures r.Outside? <==> !r.Refused? && !Fits(p, maxDx, maxDy)
    ensures r.Best? ==> Optimal(p, c, maxDx, maxDy, r.offset) && r.offset.error <= 255 * p.width * p.height
  {
    hide Sad, Valid, Passes, Admissible, ReadableBefore, BestBefore, Optimal;
    if !Pair(p, c) || maxDx < 0 || maxDy < 0 {
      return Refused;
    }
    AreaFits(p);
    FitsExact(p, maxDx, maxDy);
    var best, bestX, bestY := UINT64_MAX, 0, 0;
    ghost var found: Option<Offset> := None;
    Nothing(p, c, maxDx, maxDy);
    for dy := -maxDy to maxDy + 1
      invariant BestBefore(p, c, maxDx, maxDy, -maxDx, dy, found)
      invariant ReadableBefore(p, maxDx, maxDy, -maxDx, dy)
      invariant Tracks(best, bestX, bestY, found)
    {
      for dx := -maxDx to maxDx + 1
        invariant BestBefore(p, c, maxDx, maxDy, dx, dy, found)
        invariant ReadableBefore(p, maxDx, maxDy, dx, dy)
        invariant Tracks(best, bestX, bestY, found)
      {
        assert InWindow(maxDx, maxDy, dx, dy);
        CandidateTest(p, dx, dy);
        ghost var was := found;
        if Passes(p.width, p.height, dx, dy) {
          if !Readable(p, dx, dy) {
            return Outside;
          }
          var error := Measure(p, c, dx, dy);
          SadBound(p, c, dx, dy);
          if error < best {
            best, bestX, bestY := error, dx, dy;
            found := Some(Offset(dx, dy, error));
          }
        }
        BestStep(p, c, maxDx, maxDy, dx, dy, was, found);
        ReadableStep(p, maxDx, maxDy, dx, dy);
      }
      BestRow(p, c, maxDx, maxDy, dy, found);
      ReadableRow(p, maxDx, maxDy, dy);
    }
    Finish(p, c, maxDx, maxDy, found);
    AllReadable(p, maxDx, maxDy);
    if best == UINT64_MAX {
      return Refused;
    }
    return Best(Offset(bestX, bestY, best));
  }

  /** Before the first position nothing has been scanned. */
  lemma Nothing(p: GrayFrame, c: GrayFrame, maxDx: int, maxDy: int)
    requires Pair(p, c)
    ensures BestBefore(p, c, maxDx, maxDy, -maxDx, -maxDy, None) && ReadableBefore(p, maxDx, maxDy, -maxDx, -maxDy)
  {
    hide Readable, Admissible;
  }

  lemma AllReadable(p: GrayFrame, maxDx: i32, maxDy: i32)
    requires Valid(p) && maxDx >= 0 && maxDy >= 0 && ReadableBefore(p, maxDx, maxDy, -maxDx, maxDy + 1)
    ensures Fits(p, maxDx, maxDy)
  {
    hide Readable;
    FitsExact(p, maxDx, maxDy);
  }

  /** The loop variables hold the best so far; the largest 64 bit value stands for none. */
  ghost predicate Tracks(best: int, bestX: int, bestY: int, found: Option<Offset>) {
    match found
    case None => best == UINT64_MAX
    case Some(b) => 0 <= best < UINT64_MAX && b == Offset(bestX, bestY, best)
  }

  lemma Finish(p: GrayFrame, c: GrayFrame, maxDx: int, maxDy: int, found: Option<Offset>)
    requires Pair(p, c) && maxDx >= 0 && maxDy >= 0
    requires BestBefore(p, c, maxDx, maxDy, -maxDx, maxDy + 1, found)
    ensures found.Some? && Optimal(p, c, maxDx, maxDy, found.value)
    ensures found.value.error <= 255 * p.width * p.height
  {
    hide Sad, Admissible;
    StandingStill(p, maxDx, maxDy);
    assert Before(0, 0, -maxDx, maxDy + 1);
    SadBound(p, c, found.value.dx, found.value.dy);
  }

  // -------------------------------------------------------------------------
  // What the search recognises
  // -------------------------------------------------------------------------

  /** On the overlap the second frame is the first one moved by an offset. */
  ghost predicate ShiftedBy(p: GrayFrame, c: GrayFrame, dx: int, dy: int)
    requires Pair(p, c)
  {
    forall x: nat, y: nat :: x < p.width && y < p.height && 0 <= x + dx < p.width && 0 <= y + dy < p.height ==>
      Pixel(p, x, y) == Pixel(c, x + dx, y + dy)
  }

  lemma {:induction false} ShiftedRow(p: GrayFrame, c: GrayFrame, dx: int, dy: int, y: nat, x0: nat, x1: nat)
    requires Pair(p, c) && x0 <= x1 && Low(dx) <= x0 && x1 <= High(p.width, dx)
    requires Low(dy) <= y < High(p.height, dy) && ShiftedBy(p, c, dx, dy)
    ensures RowError(p, c, dx, dy, y, x0, x1) == 0
    decreases x1
  {
    hide Pixel;
    if x0 < x1 {
      ShiftedRow(p, c, dx, dy, y, x0, x1 - 1);
    }
  }

  lemma {:induction false} ShiftedRows(p: GrayFrame, c: GrayFrame, dx: int, dy: int, y0: nat, y1: nat)
    requires Pair(p, c) && y0 <= y1 && Low(dy) <= y0 && y1 <= High(p.height, dy)
    requires Low(dx) <= High(p.width, dx) && ShiftedBy(p, c, dx, dy)
    ensures RowsError(p, c, dx, dy, y0, y1) == 0
    decreases y1
  {
    hide Pixel, ShiftedBy, RowError;
    if y0 < y1 {
      ShiftedRows(p, c, dx, dy, y0, y1 - 1);
      ShiftedRow(p, c, dx, dy, y1 - 1, Low(dx), High(p.width, dx));
    }
  }

  /** If the second frame is the first moved by some candidate offset, the optimum has error zero,
      and it is that offset or an earlier one that explains the frames just as exactly. */
  lemma ExactShiftFound(p: GrayFrame, c: GrayFrame, maxDx: int, maxDy: int, b: Offset, dx: int, dy: int)
    requires Pair(p, c) && Optimal(p, c, maxDx, maxDy, b)
    requires Candidate(p, maxDx, maxDy, dx, dy) && ShiftedBy(p, c, dx, dy)
    ensures b.error == 0 && !Before(dx, dy, b.dx, b.dy)
  {
    ShiftedRows(p, c, dx, dy, Low(dy), High(p.height, dy));
    hide RowsError, ShiftedBy;
  }

  /** Along part of a row: no difference at all exactly if every pair of pixels agrees, and differences
      of the same size add up to so many times that size. */
  lemma {:induction false} RowExact(p: GrayFrame, c: GrayFrame, dx: int, dy: int, y: nat, x0: nat, x1: nat, k: nat)
    requires Pair(p, c) && x0 <= x1 && Low(dx) <= x0 && x1 <= High(p.width, dx)
    requires Low(dy) <= y < High(p.height, dy)
    ensures RowError(p, c, dx, dy, y, x0, x1) == 0 <==>
            forall x: nat :: x0 <= x < x1 ==> Pixel(p, x, y) == Pixel(c, x + dx, y + dy)
    ensures (forall x: nat :: x0 <= x < x1 ==> Abs(Pixel(p, x, y) - Pixel(c, x + dx, y + dy)) == k) ==>
              RowError(p, c, dx, dy, y, x0, x1) == k * (x1 - x0)
    decreases x1
  {
    hide Pixel, Valid;
    if x0 < x1 {
      RowExact(p, c, dx, dy, y, x0, x1 - 1, k);
      assert k * (x1 - x0) == k * (x1 - 1 - x0) + k;
    }
  }

  /** The pixels of the overlap, both frames' places for each. */
  predicate Overlaps(p: GrayFrame, dx: int, dy: int, x: int, y: int) {
    0 <= x < p.width && 0 <= y < p.height && 0 <= x + dx < p.width && 0 <= y + dy < p.height
  }

  lemma {:induction false} RowsExact(p: GrayFrame, c: GrayFrame, dx: int, dy: int, y0: nat, y1: nat, k: nat)
    requires Pair(p, c) && y0 <= y1 && Low(dy) <= y0 && y1 <= High(p.height, dy)
    requires Low(dx) <= High(p.width, dx)
    ensures RowsError(p, c, dx, dy, y0, y1) == 0 <==>
            forall x: nat, y: nat :: Low(dx) <= x < High(p.width, dx) && y0 <= y < y1 ==>
              Pixel(p, x, y) == Pixel(c, x + dx, y + dy)
    ensures (forall x: nat, y: nat :: Low(dx) <= x < High(p.width, dx) && y0 <= y < y1 ==>
               Abs(Pixel(p, x, y) - Pixel(c, x + dx, y + dy)) == k) ==>
              RowsError(p, c, dx, dy, y0, y1) == k * (High(p.width, dx) - Low(dx)) * (y1 - y0)
    decreases y1
  {
    hide Pixel, Valid, RowError;
    if y0 < y1 {
      RowsExact(p, c, dx, dy, y0, y1 - 1, k);
      RowExact(p, c, dx, dy, y1 - 1, Low(dx), High(p.width, dx), k);
      var w := k * (High(p.width, dx) - Low(dx));
      assert w * (y1 - y0) == w * (y1 - 1 - y0) + w;
    }
  }

  /** The error of an offset is zero if and only if all overlapping pixels agree; and if they all differ
      by the same amount, it is that amount for every pixel of the overlap. */
  lemma SadExact(p: GrayFrame, c: GrayFrame, dx: int, dy: int, k: nat)
    requires Pair(p, c) && Admissible(p.width, p.height, dx, dy)
    ensures Sad(p, c, dx, dy) == 0 <==>
            forall x, y :: Overlaps(p, dx, dy, x, y) ==> Pixel(p, x, y) == Pixel(c, x + dx, y + dy)
    ensures (forall x, y :: Overlaps(p, dx, dy, x, y) ==> Abs(Pixel(p, x, y) - Pixel(c, x + dx, y + dy)) == k) ==>
              Sad(p, c, dx, dy) == k * (p.width - Abs(dx)) * (p.height - Abs(dy))
  {
    RowsExact(p, c, dx, dy, Low(dy), High(p.height, dy), k);
    hide RowsError, Pixel, Valid;
    assert forall x: nat, y: nat :: Low(dx) <= x < High(p.width, dx) && Low(dy) <= y < High(p.height, dy) <==>
             Overlaps(p, dx, dy, x, y);
  }
}
