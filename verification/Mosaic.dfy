/**
 The mosaic of src/vision/frame_matrix.c: frames scattered onto a canvas of sums and counts.
 Cell by cell it is the exact average of the pixels that fell there.
 */
module Mosaic {
  import opened Bytes
  import opened Vision

  const UINT32_MAX: nat := 0xFFFF_FFFF

  /** One canvas cell: the sum of the pixels that fell on it, and how many. */
  datatype Cell = Cell(sum: nat, count: nat)

  const BLANK: Cell := Cell(0, 0)

  /** A frame at a place of the canvas. */
  datatype Placed = Placed(frame: GrayFrame, ox: int, oy: int)

  /** The pixel of a placed frame that falls on a cell. */
  function Hit(p: Placed, gx: int, gy: int): (r: Option<byte>)
    requires Valid(p.frame)
  {
    if 0 <= gx - p.ox < p.frame.width && 0 <= gy - p.oy < p.frame.height
    then Some(Pixel(p.frame, gx - p.ox, gy - p.oy)) else None
  }

  /** Pixel (x, y) of a frame falls on the cell as far right and down of its place, and nothing falls on
      other cells. */
  lemma HitExact(p: Placed, gx: int, gy: int)
    requires Valid(p.frame)
    ensures forall x: nat, y: nat :: x < p.frame.width && y < p.frame.height && gx == p.ox + x && gy == p.oy + y ==>
              Hit(p, gx, gy) == Some(Pixel(p.frame, x, y))
    ensures Hit(p, gx, gy).None? <==> gx < p.ox || gx >= p.ox + p.frame.width || gy < p.oy || gy >= p.oy + p.frame.height
  {
    hide Valid, Pixel;
  }

  /** A cell stops accumulating when its count is full. */
  function Accumulate(c: Cell, hit: Option<byte>): Cell {
    if hit.None? || c.count == UINT32_MAX then c else Cell(c.sum + hit.value as int, c.count + 1)
  }

  /** mosaic_value. */
  function Value(c: Cell): (v: nat) {
    if c.count == 0 then 0 else c.sum / c.count % 256
  }

  // -------------------------------------------------------------------------
  // The canvas
  // -------------------------------------------------------------------------

  lemma CellPlace(width: nat, height: nat, gx: nat, gy: nat)
    requires gx < width && gy < height
    ensures 0 <= gy * width + gx < width * height
  {
    assert gy * width <= (height - 1) * width;
    assert (height - 1) * width + width == width * height;
  }

  lemma CellsApart(width: nat, gx: nat, gy: nat, hx: nat, hy: nat)
    requires gx < width && hx < width && (gx, gy) != (hx, hy)
    ensures gy * width + gx != hy * width + hx
  {
    if gy < hy {
      assert gy * width + width <= hy * width by { MulMonotone(width, gy + 1, hy); }
    } else if hy < gy {
      assert hy * width + width <= gy * width by { MulMonotone(width, hy + 1, gy); }
    }
  }

  class VisionMosaic {
    const width: nat
    const height: nat
    const sum: array<nat>
    const count: array<nat>

    ghost predicate Shaped() {
      sum != count && sum.Length == width * height && count.Length == width * height
    }

    constructor (w: nat, h: nat)
      ensures Shaped() && width == w && height == h && fresh(sum) && fresh(count)
      ensures forall gx: nat, gy: nat :: gx < w && gy < h ==> At(gx, gy) == BLANK
    {
      width, height := w, h;
      var cells := w * h;
      sum := new nat[cells](i => 0);
      count := new nat[cells](i => 0);
      new;
      assert forall i :: 0 <= i < cells ==> sum[i] == 0 && count[i] == 0;
      forall gx: nat, gy: nat | gx < w && gy < h
        ensures At(gx, gy) == BLANK
      {
        CellPlace(width, height, gx, gy);
      }
    }

    ghost function At(gx: nat, gy: nat): Cell
      reads sum, count
      requires Shaped() && gx < width && gy < height
    {
      CellPlace(width, height, gx, gy);
      Cell(sum[gy * width + gx], count[gy * width + gx])
    }

    /** One pixel onto one cell. */
    method Put(gx: nat, gy: nat, pixel: byte)
      requires Shaped() && gx < width && gy < height
      modifies sum, count
      ensures At(gx, gy) == Accumulate(old(At(gx, gy)), Some(pixel))
      ensures forall hx: nat, hy: nat :: hx < width && hy < height && (hx, hy) != (gx, gy) ==>
                At(hx, hy) == old(At(hx, hy))
    {
      CellPlace(width, height, gx, gy);
      var i := gy * width + gx;
      if count[i] != UINT32_MAX {
        sum[i] := sum[i] + pixel as int;
        count[i] := count[i] + 1;
      }
      forall hx: nat, hy: nat | hx < width && hy < height && (hx, hy) != (gx, gy)
        ensures At(hx, hy) == old(At(hx, hy))
      {
        CellPlace(width, height, hx, hy);
        CellsApart(width, gx, gy, hx, hy);
      }
    }

    /** vision_mosaic_add: scattering a frame over the canvas gathers, in every cell, the one pixel
        that falls there. */
    method Add(p: Placed) returns (ok: bool)
      requires Shaped()
      modifies sum, count
      ensures ok == Valid(p.frame)
      ensures forall gx: nat, gy: nat :: gx < width && gy < height ==>
                At(gx, gy) == if ok then Accumulate(old(At(gx, gy)), Hit(p, gx, gy)) else old(At(gx, gy))
    {
      if !Valid(p.frame) {
        return false;
      }
      hide Valid, Pixel;
      for y := 0 to p.frame.height
        invariant forall gx: nat, gy: nat :: gx < width && gy < height ==>
                    At(gx, gy) == if gy - p.oy < y then Accumulate(old(At(gx, gy)), Hit(p, gx, gy)) else old(At(gx, gy))
      {
        AddRow(p, y);
      }
      return true;
    }

    method AddRow(p: Placed, y: nat)
      requires Shaped() && Valid(p.frame) && y < p.frame.height
      modifies sum, count
      ensures forall gx: nat, gy: nat :: gx < width && gy < height ==>
                At(gx, gy) == if gy - p.oy == y then Accumulate(old(At(gx, gy)), Hit(p, gx, gy)) else old(At(gx, gy))
    {
      hide Valid, Pixel;
      var gy := p.oy + y;
      if gy < 0 || gy >= height {
        return;
      }
      for x := 0 to p.frame.width
        invariant forall hx: nat, hy: nat :: hx < width && hy < height ==>
                    At(hx, hy) == if hy == gy && hx - p.ox < x then Accumulate(old(At(hx, hy)), Hit(p, hx, hy))
                                  else old(At(hx, hy))
      {
        var gx := p.ox + x;
        if 0 <= gx < width {
          Put(gx, gy, Pixel(p.frame, x, y));
        }
      }
    }
  }

  // -------------------------------------------------------------------------
  // The average
  // -------------------------------------------------------------------------

  ghost predicate AllValid(adds: seq<Placed>) {
    forall i :: 0 <= i < |adds| ==> Valid(adds[i].frame)
  }

  /** A cell after any number of frames. */
  ghost function CellAfter(adds: seq<Placed>, gx: int, gy: int): Cell
    requires AllValid(adds)
  {
    if adds == [] then BLANK
    else Accumulate(CellAfter(adds[..|adds| - 1], gx, gy), Hit(adds[|adds| - 1], gx, gy))
  }

  /** Every pixel that ever fell on a cell. */
  ghost function Fallen(adds: seq<Placed>, gx: int, gy: int): (r: seq<byte>)
    requires AllValid(adds)
    ensures |r| <= |adds|
  {
    if adds == [] then []
    else
      var h := Hit(adds[|adds| - 1], gx, gy);
      Fallen(adds[..|adds| - 1], gx, gy) + if h.Some? then [h.value] else []
  }

  ghost function Total(pixels: seq<byte>): (n: nat) {
    if pixels == [] then 0 else Total(pixels[..|pixels| - 1]) + pixels[|pixels| - 1] as int
  }

  /** While fewer than 2^32 - 1 frames have been added a cell is the exact sum and number of its
      pixels. */
  lemma {:induction false} CellExact(adds: seq<Placed>, gx: int, gy: int)
    requires AllValid(adds) && |adds| <= UINT32_MAX
    ensures CellAfter(adds, gx, gy) == Cell(Total(Fallen(adds, gx, gy)), |Fallen(adds, gx, gy)|)
  {
    hide Hit, Valid;
    if adds != [] {
      CellExact(adds[..|adds| - 1], gx, gy);
      var before, h := Fallen(adds[..|adds| - 1], gx, gy), Hit(adds[|adds| - 1], gx, gy);
      if h.Some? {
        TotalStep(before, h.value);
      } else {
        assert before + [] == before;
      }
    }
  }

  lemma TotalStep(pixels: seq<byte>, b: byte)
    ensures Total(pixels + [b]) == Total(pixels) + b as int
  {
    assert (pixels + [b])[..|pixels|] == pixels;
  }

  lemma OneMore(k: int, n: int)
    ensures k * (n + 1) == k * n + k
  {
  }

  ghost predicate Between(pixels: seq<byte>, lo: nat, hi: nat) {
    forall i :: 0 <= i < |pixels| ==> lo <= pixels[i] <= hi
  }

  lemma {:induction false} TotalBetween(pixels: seq<byte>, lo: nat, hi: nat)
    requires Between(pixels, lo, hi)
    ensures lo * |pixels| <= Total(pixels) <= hi * |pixels|
  {
    if pixels != [] {
      var n := |pixels| - 1;
      TotalBetween(pixels[..n], lo, hi);
      OneMore(lo, n);
      OneMore(hi, n);
    }
  }

  lemma QuotientBetween(total: nat, n: nat, lo: nat, hi: nat)
    requires n > 0 && lo * n <= total <= hi * n
    ensures lo <= total / n <= hi
  {
    var q := total / n;
    assert total == q * n + total % n;
    OneMore(n, q);
    OneMore(n, hi);
    if q < lo {
      MulMonotone(n, q + 1, lo);
    }
    if q > hi {
      MulMonotone(n, hi + 1, q);
    }
  }

  /** What is exported for a cell lies between the darkest and the brightest pixel that fell on it;
      in particular the narrowing to eight bits never cuts anything off. */
  lemma ValueBetween(adds: seq<Placed>, gx: int, gy: int, lo: nat, hi: nat)
    requires AllValid(adds) && |adds| <= UINT32_MAX && lo <= hi <= 255
    requires Fallen(adds, gx, gy) != [] && Between(Fallen(adds, gx, gy), lo, hi)
    ensures lo <= Value(CellAfter(adds, gx, gy)) <= hi
    ensures Value(CellAfter(adds, gx, gy)) == Total(Fallen(adds, gx, gy)) / |Fallen(adds, gx, gy)|
  {
    hide Fallen, CellAfter, Total;
    var pixels := Fallen(adds, gx, gy);
    CellExact(adds, gx, gy);
    TotalBetween(pixels, lo, hi);
    QuotientBetween(Total(pixels), |pixels|, lo, hi);
  }
}
