/** A flat row-major grid of cells and offset views onto it (`src/canvas.rs`).

    Coordinates handed to the grid are unbounded integers. In the Rust code they
    are `i32` sums such as `x + rect.x`; when such a sum wraps it becomes
    negative and is rejected by the bounds check exactly as an over-large
    unbounded sum is, as long as the canvas is narrower than 2^31 columns. */
module Canvases {
  import opened Ints
  import opened Options
  import opened Colors
  import opened Cells

  /** The rectangle type of `src/geom`, with the fields the canvas uses. */
  datatype Rect = Rect(x: i32, y: i32, width: i32, height: i32)

  predicate InRect(r: Rect, px: int, py: int)
  {
    r.x <= px < r.x + r.width && r.y <= py < r.y + r.height
  }

  predicate InBounds(w: int, h: int, x: int, y: int)
  {
    0 <= x < w && 0 <= y < h
  }

  function Max(a: int, b: int): int { if a < b then b else a }

  /** The index of the first cell of row `y` in a row-major grid of width
      `w`, which is also the number of cells in `y` full rows. It is `y * w`
      (RowStartIsProduct), counted a row at a time so that the index
      arithmetic of the grid stays linear. */
  function RowStart(y: nat, w: nat): nat
  {
    if y == 0 then 0 else RowStart(y - 1, w) + w
  }

  lemma {:induction false} RowStartIsProduct(y: nat, w: nat)
    ensures RowStart(y, w) == y * w
  {
    if y > 0 {
      RowStartIsProduct(y - 1, w);
      assert y * w == (y - 1) * w + w;
    }
  }

  /** Later rows start later. */
  lemma {:induction false} RowStartMono(y1: nat, y2: nat, w: nat)
    requires y1 <= y2
    ensures RowStart(y1, w) <= RowStart(y2, w)
  {
    if y1 < y2 {
      RowStartMono(y1, y2 - 1, w);
    }
  }

  /** Row-major indices of in-bounds positions lie inside the grid. */
  lemma IndexBound(w: nat, h: nat, x: int, y: int)
    requires InBounds(w, h, x, y)
    ensures 0 <= x + RowStart(y, w) < RowStart(h, w)
  {
    RowStartMono(y + 1, h, w);
  }

  /** Distinct positions of a row of width `w` have distinct indices. */
  lemma {:induction false} IndexInjective(w: nat, x1: int, y1: int, x2: int, y2: int)
    requires 0 <= x1 < w && 0 <= x2 < w && 0 <= y1 && 0 <= y2
    requires x1 + RowStart(y1, w) == x2 + RowStart(y2, w)
    ensures x1 == x2 && y1 == y2
  {
    if y1 > 0 && y2 > 0 {
      IndexInjective(w, x1, y1 - 1, x2, y2 - 1);
    }
  }

  /** Every index of a `w` by `h` grid is the index of an in-bounds position. */
  lemma IndexCovers(w: nat, h: nat, k: int)
    requires 0 <= k < RowStart(h, w)
    ensures w > 0 && InBounds(w, h, k % w, k / w) && k == k % w + RowStart(k / w, w)
  {
    RowStartIsProduct(h, w);
    assert w > 0;
    RowStartIsProduct(k / w, w);
    if k / w >= h {
      RowStartMono(h, k / w, w);
    }
  }

  /** The cell at (x, y) of a row-major grid of width `w`; the null cell off the grid. */
  function At(cells: seq<Cell>, w: int, x: int, y: int): Cell
  {
    if 0 <= x < w && 0 <= y && x + RowStart(y, w) < |cells| then cells[x + RowStart(y, w)] else Null()
  }

  /** Overwriting one index changes the cell at its own position and no other. */
  lemma AtUpdate(cells: seq<Cell>, w: nat, h: nat, x: int, y: int, i: nat, c: Cell)
    requires |cells| == RowStart(h, w) && InBounds(w, h, x, y) && i == x + RowStart(y, w)
    ensures i < |cells| && At(cells, w, x, y) == cells[i]
    ensures forall a, b :: InBounds(w, h, a, b) ==>
      At(cells[i := c], w, a, b) == if a == x && b == y then c else At(cells, w, a, b)
  {
    IndexBound(w, h, x, y);
    forall a, b | InBounds(w, h, a, b)
      ensures At(cells[i := c], w, a, b) == if a == x && b == y then c else At(cells, w, a, b)
    {
      IndexBound(w, h, a, b);
      if a + RowStart(b, w) == i {
        IndexInjective(w, a, b, x, y);
      }
    }
  }

  /** Two grids of the same size that agree at every position are equal. */
  lemma GridExtensional(s: seq<Cell>, t: seq<Cell>, w: nat, h: nat)
    requires |s| == RowStart(h, w) && |t| == RowStart(h, w)
    requires forall a, b :: InBounds(w, h, a, b) ==> At(s, w, a, b) == At(t, w, a, b)
    ensures s == t
  {
    forall k | 0 <= k < |s| ensures s[k] == t[k] {
      IndexCovers(w, h, k);
      assert At(s, w, k % w, k / w) == At(t, w, k % w, k / w);
    }
  }

  /** `new` is `old` with every in-bounds position of `r` overwritten by `c`. */
  ghost predicate FilledRect(old_cells: seq<Cell>, new_cells: seq<Cell>, w: nat, h: nat, c: Cell, r: Rect)
  {
    |new_cells| == |old_cells| &&
    forall a, b :: InBounds(w, h, a, b) ==>
      At(new_cells, w, a, b) == if InRect(r, a, b) then c else At(old_cells, w, a, b)
  }

  /** How many columns (or rows) of a source `draw_canvas` visits along one
      axis: the source length cast to i32, cut back so that it ends at the
      destination's edge, also cast to i32, when it would pass it. The sum
      and the difference with the offset are i32 arithmetic and wrap, as in
      a release build. */
  function ClipSpan(srcLen: u32, d: i32, dstLen: u32): (n: i32)
    // Where neither the sum nor the difference overflows, the span is the
    // source length, or shorter so that it ends exactly at the destination's edge.
    ensures -0x8000_0000 <= U32AsI32(srcLen) + d < 0x8000_0000 && -0x8000_0000 <= U32AsI32(dstLen) - d < 0x8000_0000
            ==> n <= U32AsI32(srcLen) && n + d <= U32AsI32(dstLen)
                && (n == U32AsI32(srcLen) || n + d == U32AsI32(dstLen))
  {
    var n := U32AsI32(srcLen);
    if WrappingAddI32(n, d) > U32AsI32(dstLen) then WrappingSubI32(U32AsI32(dstLen), d) else n
  }

  /** For grids narrower than 2^31 the casts change nothing: every source
      position that lands on the destination lies inside the visited span. */
  lemma ClipSpanCovers(srcLen: u32, d: i32, dstLen: u32, a: int)
    requires srcLen < 0x8000_0000 && dstLen < 0x8000_0000
    requires 0 <= a < dstLen && 0 <= a - d < srcLen
    ensures a - d < ClipSpan(srcLen, d, dstLen)
  {
  }

  /** A source 2^31 or more long reads as negative once cast; unless adding
      the offset wraps, nothing of it is visited on a destination narrower
      than 2^31 (on a wider one the difference can wrap as well). */
  lemma ClipSpanWraps(srcLen: u32, d: i32, dstLen: u32)
    requires srcLen >= 0x8000_0000 && d >= 0x8000_0000 - srcLen && dstLen < 0x8000_0000
    ensures ClipSpan(srcLen, d, dstLen) < 0
  {
  }

  /** When adding the offset to such a negative length wraps round to a
      value past the destination's edge, the span is the destination's
      length minus the offset: columns are visited after all. */
  lemma ClipSpanWrapsPositive(srcLen: u32, d: i32, dstLen: u32)
    requires srcLen >= 0x8000_0000 && d < 0x8000_0000 - srcLen
    requires dstLen < 0x8000_0000 && srcLen + d > dstLen
    ensures ClipSpan(srcLen, d, dstLen) == WrappingSubI32(dstLen, d)
    ensures dstLen - d < 0x8000_0000 ==> ClipSpan(srcLen, d, dstLen) == dstLen - d > dstLen
  {
  }

  /** A source 2^31 columns wide drawn one column to the left of a
      destination 100 columns wide: 101 columns are visited. */
  lemma ClipSpanWideExample()
    ensures ClipSpan(0x8000_0000, -1, 100) == 101
  {
  }

  class Canvas {
    var width: u32
    var height: u32
    var cells: seq<Cell>

    ghost predicate Valid()
      reads this
    {
      |cells| == RowStart(height, width)
    }

    /** `Canvas::new`: a `w` by `h` grid of null cells. */
    constructor (w: u32, h: u32)
      ensures Valid() && width == w && height == h
      ensures forall i :: 0 <= i < |cells| ==> cells[i] == Null()
    {
      width, height := w, h;
      cells := seq(w * h, _ => Null());
      RowStartIsProduct(h, w);
    }

    /** Sets the dimensions and discards the content: every cell is null. */
    method Resize(w: u32, h: u32)
      modifies this
      ensures Valid() && width == w && height == h
      ensures forall i :: 0 <= i < |cells| ==> cells[i] == Null()
    {
      width := w;
      height := h;
      cells := seq(w * h, _ => Null());
      RowStartIsProduct(h, w);
    }

    /** The bounds-checked row-major index of (x, y). */
    function Index(x: int, y: int): (r: Option<nat>)
      reads this
      ensures r.None? <==> x < 0 || y < 0 || x >= width || y >= height
      ensures r.Some? ==> r.value == x + RowStart(y, width) && r.value < RowStart(height, width)
    {
      if x < 0 || y < 0 || x >= width || y >= height then
        None
      else
        IndexBound(width, height, x, y);
        Some(x + RowStart(y, width))
    }

    /** The index is the Rust code's row-major `x + y * width`. */
    lemma IndexIsRowMajor(x: int, y: int)
      requires Index(x, y).Some?
      ensures Index(x, y).value == x + y * width
    {
      RowStartIsProduct(y, width);
    }

    /** `cell(x, y)`: the cell at an in-bounds position, `None` elsewhere. */
    function CellAt(x: int, y: int): (r: Option<Cell>)
      reads this
      requires Valid()
      ensures r.Some? <==> InBounds(width, height, x, y)
      ensures r.Some? ==> r.value == At(cells, width, x, y)
    {
      match Index(x, y)
      case Some(i) => Some(cells[i])
      case None => None
    }

    /** Replaces every cell with `c`; the dimensions are kept. */
    method Fill(c: Cell)
      modifies this
      ensures Valid() && width == old(width) && height == old(height)
      ensures forall i :: 0 <= i < |cells| ==> cells[i] == c
    {
      cells := seq(width * height, _ => c);
      RowStartIsProduct(height, width);
    }

    method Clear()
      modifies this
      ensures Valid() && width == old(width) && height == old(height)
      ensures forall i :: 0 <= i < |cells| ==> cells[i] == Null()
    {
      Fill(Null());
    }

    /** Overwrites, without blending, every in-bounds position of `r`. */
    method FillRect(c: Cell, r: Rect)
      requires Valid()
      modifies this
      ensures Valid() && width == old(width) && height == old(height)
      ensures FilledRect(old(cells), cells, width, height, c, r)
    {
      var j := 0;
      while j < r.height
        invariant 0 <= j <= Max(0, r.height)
        invariant Valid() && width == old(width) && height == old(height)
        invariant forall a, b :: InBounds(width, height, a, b) ==>
          At(cells, width, a, b) ==
            if r.x <= a < r.x + r.width && r.y <= b < r.y + j then c else At(old(cells), width, a, b)
      {
        var i := 0;
        while i < r.width
          invariant 0 <= i <= Max(0, r.width)
          invariant Valid() && width == old(width) && height == old(height)
          invariant forall a, b :: InBounds(width, height, a, b) ==>
            At(cells, width, a, b) ==
              if (r.x <= a < r.x + r.width && r.y <= b < r.y + j) || (b == r.y + j && r.x <= a < r.x + i)
              then c else At(old(cells), width, a, b)
        {
          var px, py := i + r.x, j + r.y;
          var idx := Index(px, py);
          if idx.Some? {
            AtUpdate(cells, width, height, px, py, idx.value, c);
            cells := cells[idx.value := c];
          }
          i := i + 1;
        }
        j := j + 1;
      }
    }
  

    /** Writes `text` left to right from (x, y), one column per character;
        each in-bounds character cell is drawn over what was there. */
    method DrawText(x: int, y: int, fg: Color, bg: Color, text: string, blend: BlendFn)
      requires Valid()
      modifies this
      ensures Valid() && width == old(width) && height == old(height)
      ensures forall a, b :: InBounds(width, height, a, b) ==>
        At(cells, width, a, b) ==
          if b == y && x <= a < x + |text|
          then Blend(Cell(fg, bg, text[a - x]), At(old(cells), width, a, b), blend)
          else At(old(cells), width, a, b)
    {
      var cx := x;
      var k := 0;
      while k < |text|
        invariant 0 <= k <= |text| && cx == x + k
        invariant Valid() && width == old(width) && height == old(height)
        invariant forall a, b :: InBounds(width, height, a, b) ==>
          At(cells, width, a, b) ==
            if b == y && x <= a < x + k
            then Blend(Cell(fg, bg, text[a - x]), At(old(cells), width, a, b), blend)
            else At(old(cells), width, a, b)
      {
        var idx := Index(cx, y);
        if idx.Some? {
          AtUpdate(cells, width, height, cx, y, idx.value, cells[idx.value]);
          var cell := Cell(fg, bg, text[k]);
          var drawn := Blend(cell, cells[idx.value], blend);
          AtUpdate(cells, width, height, cx, y, idx.value, drawn);
          cells := cells[idx.value := drawn];
        }
        cx := cx + 1;
        k := k + 1;
      }
    }

    /** Composites `src` onto this canvas with its origin at (dx, dy): every
        position covered by both grids becomes the source cell drawn over the
        destination cell, within the span the i32 casts of the sizes leave
        (`ClipSpan`); nothing else is written. */
    method DrawCanvas(dx: i32, dy: i32, src: Canvas, blend: BlendFn)
      requires Valid() && src.Valid() && src != this
      modifies this
      ensures Valid() && width == old(width) && height == old(height)
      ensures forall a, b :: InBounds(width, height, a, b) ==>
        At(cells, width, a, b) ==
          if InBounds(src.width, src.height, a - dx, b - dy)
             && a - dx < ClipSpan(src.width, dx, width) && b - dy < ClipSpan(src.height, dy, height)
          then Cells.Blend(At(src.cells, src.width, a - dx, b - dy), At(old(cells), width, a, b), blend)
          else At(old(cells), width, a, b)
    {
      var w: i32 := U32AsI32(src.width);
      var h: i32 := U32AsI32(src.height);
      if WrappingAddI32(w, dx) > U32AsI32(width) {
        w := WrappingSubI32(U32AsI32(width), dx);
      }
      if WrappingAddI32(h, dy) > U32AsI32(height) {
        h := WrappingSubI32(U32AsI32(height), dy);
      }
      var j := 0;
      while j < h
        invariant 0 <= j <= Max(0, h)
        invariant Valid() && width == old(width) && height == old(height)
        invariant forall a, b :: InBounds(width, height, a, b) ==>
          At(cells, width, a, b) ==
            if InBounds(src.width, src.height, a - dx, b - dy) && a - dx < w && b - dy < j
            then Cells.Blend(At(src.cells, src.width, a - dx, b - dy), At(old(cells), width, a, b), blend)
            else At(old(cells), width, a, b)
      {
        DrawCanvasRow(dx, dy, j, w, src, blend, old(cells));
        j := j + 1;
      }
    }

    /** Row `j` of `src` composited onto this canvas, for the `w` columns of
        `src` that fit (the inner loop of `draw_canvas`); `before` is the
        destination as the whole composite began. */
    method DrawCanvasRow(dx: int, dy: int, j: int, w: int, src: Canvas, blend: BlendFn, ghost before: seq<Cell>)
      requires Valid() && src.Valid() && src != this && 0 <= j && |before| == |cells|
      requires forall a, b :: InBounds(width, height, a, b) ==>
        At(cells, width, a, b) ==
          if InBounds(src.width, src.height, a - dx, b - dy) && a - dx < w && b - dy < j
          then Cells.Blend(At(src.cells, src.width, a - dx, b - dy), At(before, width, a, b), blend)
          else At(before, width, a, b)
      modifies this
      ensures Valid() && width == old(width) && height == old(height)
      ensures forall a, b :: InBounds(width, height, a, b) ==>
        At(cells, width, a, b) ==
          if InBounds(src.width, src.height, a - dx, b - dy) && a - dx < w && b - dy < j + 1
          then Cells.Blend(At(src.cells, src.width, a - dx, b - dy), At(before, width, a, b), blend)
          else At(before, width, a, b)
    {
      var i := 0;
      while i < w
        invariant 0 <= i <= Max(0, w)
        invariant Valid() && width == old(width) && height == old(height)
        invariant forall a, b :: InBounds(width, height, a, b) ==>
          At(cells, width, a, b) ==
            if InBounds(src.width, src.height, a - dx, b - dy) && a - dx < w && (b - dy < j || (b - dy == j && a - dx < i))
            then Cells.Blend(At(src.cells, src.width, a - dx, b - dy), At(before, width, a, b), blend)
            else At(before, width, a, b)
      {
        var dst := Index(i + dx, j + dy);
        if dst.Some? {
          var from := src.CellAt(i, j);
          if from.Some? {
            AtUpdate(cells, width, height, i + dx, j + dy, dst.value, cells[dst.value]);
            var drawn := Cells.Blend(from.value, cells[dst.value], blend);
            AtUpdate(cells, width, height, i + dx, j + dy, dst.value, drawn);
            cells := cells[dst.value := drawn];
          }
        }
        i := i + 1;
      }
    }

    /** `region_mut`: a view of this canvas through `r`. */
    method RegionMut(r: Rect) returns (region: CanvasRegion)
      ensures fresh(region) && region.canvas == this && region.rect == r
    {
      region := new CanvasRegion(this, r);
    }

    /** `as_region_mut`: a view of the whole canvas. */
    method AsRegionMut() returns (region: CanvasRegion)
      ensures fresh(region) && region.canvas == this
      ensures region.rect == Rect(0, 0, U32AsI32(width), U32AsI32(height))
    {
      region := RegionMut(Rect(0, 0, U32AsI32(width), U32AsI32(height)));
    }
  }

  /** `r` moved by (dx, dy), with the Rust code's wrapping `i32` additions. */
  function Translate(r: Rect, dx: i32, dy: i32): (t: Rect)
    ensures t.width == r.width && t.height == r.height
    ensures -0x8000_0000 <= r.x + dx < 0x8000_0000 ==> t.x == r.x + dx
    ensures -0x8000_0000 <= r.y + dy < 0x8000_0000 ==> t.y == r.y + dy
  {
    r.(x := WrappingAddI32(r.x, dx), y := WrappingAddI32(r.y, dy))
  }

  /** Wrapping addition is associative, so nested offsets compose. */
  lemma WrappingAddAssoc(a: i32, b: i32, c: i32)
    ensures WrappingAddI32(a, WrappingAddI32(b, c)) == WrappingAddI32(WrappingAddI32(a, b), c)
  {
    var m := U32_LIMIT;
    var bc := WrappingAddI32(b, c);
    var ab := WrappingAddI32(a, b);
    assert (bc - (b + c)) % m == 0;
    assert (ab - (a + b)) % m == 0;
    ModShift(a + b + c + 0x8000_0000, bc - (b + c));
    ModShift(a + b + c + 0x8000_0000, ab - (a + b));
  }

  lemma ModShift(x: int, k: int)
    requires k % U32_LIMIT == 0
    ensures (x + k) % U32_LIMIT == x % U32_LIMIT
  {
    var m := U32_LIMIT;
    var q := k / m;
    assert k == q * m;
    assert (x + q * m) % m == x % m by {
      assert x + q * m == (x / m + q) * m + x % m;
    }
  }

  /** Translating by an offset that is itself translated is translating twice. */
  lemma TranslateCompose(r: Rect, inner: Rect, outer: Rect)
    ensures Translate(r, Translate(inner, outer.x, outer.y).x, Translate(inner, outer.x, outer.y).y)
         == Translate(Translate(r, inner.x, inner.y), outer.x, outer.y)
  {
    WrappingAddAssoc(r.x, inner.x, outer.x);
    WrappingAddAssoc(r.y, inner.y, outer.y);
  }

  /** An offset view of a canvas. Every rectangle given to it is moved by the
      view's own offset before it reaches the canvas; writes are clipped by the
      canvas, not by the view's size. */
  class CanvasRegion {
    const canvas: Canvas
    const rect: Rect

    constructor (canvas: Canvas, rect: Rect)
      ensures this.canvas == canvas && this.rect == rect
    {
      this.canvas := canvas;
      this.rect := rect;
    }

    /** A nested view: offsets add up, the requested size is kept. */
    method RegionMut(r: Rect) returns (region: CanvasRegion)
      ensures fresh(region) && region.canvas == canvas
      ensures region.rect == Translate(r, rect.x, rect.y)
      ensures region.rect.width == r.width && region.rect.height == r.height
    {
      region := new CanvasRegion(canvas, Rect(WrappingAddI32(r.x, rect.x), WrappingAddI32(r.y, rect.y), r.width, r.height));
    }

    /** The view's own width, `rect.width as u32`. */
    function Width(): (w: u32)
      reads this
      ensures rect.width >= 0 ==> w == rect.width
      ensures rect.width < 0 ==> w == rect.width + U32_LIMIT
    {
      I32AsU32(rect.width)
    }

    function Height(): (h: u32)
      reads this
      ensures rect.height >= 0 ==> h == rect.height
      ensures rect.height < 0 ==> h == rect.height + U32_LIMIT
    {
      I32AsU32(rect.height)
    }

    function Size(): (s: (u32, u32))
      reads this
      ensures s == (Width(), Height())
    {
      (Width(), Height())
    }

    /** Fills `r`, taken relative to the view, on the underlying canvas. */
    method FillRect(c: Cell, r: Rect)
      requires canvas.Valid()
      modifies canvas
      ensures canvas.Valid() && canvas.width == old(canvas.width) && canvas.height == old(canvas.height)
      ensures FilledRect(old(canvas.cells), canvas.cells, canvas.width, canvas.height, c, Translate(r, rect.x, rect.y))
    {
      var moved := r;
      moved := moved.(x := WrappingAddI32(moved.x, rect.x));
      moved := moved.(y := WrappingAddI32(moved.y, rect.y));
      canvas.FillRect(c, moved);
    }

    /** Fills the whole view: the canvas `fill_rect` over the view's rectangle. */
    method Fill(c: Cell)
      requires canvas.Valid()
      modifies canvas
      ensures canvas.Valid() && canvas.width == old(canvas.width) && canvas.height == old(canvas.height)
      ensures FilledRect(old(canvas.cells), canvas.cells, canvas.width, canvas.height, c, rect)
    {
      FillRect(c, Rect(0, 0, rect.width, rect.height));
    }

    method Clear()
      requires canvas.Valid()
      modifies canvas
      ensures canvas.Valid() && canvas.width == old(canvas.width) && canvas.height == old(canvas.height)
      ensures FilledRect(old(canvas.cells), canvas.cells, canvas.width, canvas.height, Null(), rect)
    {
      Fill(Null());
    }
  }

  /** Filling through a nested view writes exactly the rectangle obtained by
      applying the inner offset and then the outer one. */
  method FillNested(outer: CanvasRegion, r: Rect, q: Rect, c: Cell)
    requires outer.canvas.Valid()
    modifies outer.canvas
    ensures outer.canvas.Valid()
    ensures FilledRect(old(outer.canvas.cells), outer.canvas.cells, outer.canvas.width, outer.canvas.height,
                       c, Translate(Translate(q, r.x, r.y), outer.rect.x, outer.rect.y))
  {
    var inner := outer.RegionMut(r);
    inner.FillRect(c, q);
    TranslateCompose(q, r, outer.rect);
  }
}
