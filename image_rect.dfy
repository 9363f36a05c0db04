/** The alpha-bounding-box crop of src/image.c: `struct rect`, `rect_init`, the four
    `remove_*` scans and `image_crop`. An image is a buffer of RGBA8 pixels, `4 * x` bytes
    per row; a pixel counts as opaque when its alpha byte (offset 3) is not zero. */
module ImageRect {
  import opened Wrappers
  import opened ImageBytes

  /** `struct rect` as a value: the byte offset of its first pixel in the image buffer,
      the bytes per row, the width in pixels and the number of rows. */
  datatype Region = Region(ptr: int, stride: int, width: int, line: int)

  /** What `image_crop` returns: left, top, width and height relative to the clipped rect. */
  datatype Box = Box(left: int, top: int, width: int, height: int)

  function Min(a: int, b: int): int { if a <= b then a else b }
  function Max(a: int, b: int): int { if a <= b then b else a }

  /** Every pixel of the region lies inside a buffer of `size` bytes. */
  predicate Fits(g: Region, size: int)
  {
    && 0 <= g.ptr && 0 <= g.width && 4 * g.width <= g.stride && 0 <= g.line
    && (g.line > 0 ==> g.ptr + (g.line - 1) * g.stride + 4 * g.width <= size)
  }

  /** Byte offset of pixel (`row`, `col`) of the region. */
  function Index(g: Region, row: int, col: int): int
  {
    g.ptr + row * g.stride + 4 * col
  }

  lemma IndexInside(g: Region, size: int, row: int, col: int)
    requires Fits(g, size) && 0 <= row < g.line && 0 <= col < g.width
    ensures 0 <= Index(g, row, col) && Index(g, row, col) + 3 < size
  {
    RowBefore(row, g.line - 1, g.stride);
  }

  /** The alpha byte of pixel (`row`, `col`) is not zero. */
  predicate Opaque(img: seq<byte>, g: Region, row: int, col: int)
    requires Fits(g, |img|) && 0 <= row < g.line && 0 <= col < g.width
  {
    IndexInside(g, |img|, row, col);
    img[Index(g, row, col) + 3] != 0
  }

  // ---------------------------------------------------------------------------------
  // rect_init

  /** `rect_init`: clip the requested rectangle (`dx`, `dy`, `w`, `h`) to an `x` by `y`
      image; None when nothing is left. */
  function RectInit(x: int, y: int, dx: int, dy: int, w: int, h: int): (r: Option<Region>)
    ensures r.Some? ==> r.value.stride == 4 * x && r.value.width >= 1 && r.value.line >= 1
  {
    var (w1, dx1) := if dx < 0 then (w + dx, 0) else (w, dx);
    if dx >= 0 && dx > x then None
    else
      var (h1, dy1) := if dy < 0 then (h + dy, 0) else (h, dy);
      if dy >= 0 && dy > y then None
      else
        var w2 := if w1 + dx1 > x then x - dx1 else w1;
        var h2 := if h1 + dy1 > y then y - dy1 else h1;
        if w2 <= 0 || h2 <= 0 then None
        else Some(Region(x * 4 * dy1 + 4 * dx1, 4 * x, w2, h2))
  }

  /** The clipped rect is exactly the intersection of the request with the image, and
      `rect_init` fails exactly when that intersection is empty. */
  lemma RectInitIsIntersection(x: int, y: int, dx: int, dy: int, w: int, h: int)
    ensures RectInit(x, y, dx, dy, w, h).Some? <==>
              Max(dx, 0) < Min(dx + w, x) && Max(dy, 0) < Min(dy + h, y)
    ensures RectInit(x, y, dx, dy, w, h).Some? ==>
              var g := RectInit(x, y, dx, dy, w, h).value;
              && g.ptr == 4 * x * Max(dy, 0) + 4 * Max(dx, 0)
              && g.width == Min(dx + w, x) - Max(dx, 0)
              && g.line == Min(dy + h, y) - Max(dy, 0)
  {
  }

  lemma ClipArith(x: int, y: int, dx: int, dy: int, width: int, line: int)
    requires 0 <= dx && 0 <= dy && 1 <= width && 1 <= line && dx + width <= x && dy + line <= y
    ensures x * 4 * dy + 4 * dx + (line - 1) * (4 * x) + 4 * width <= x * y * 4
  {
    assert x * 4 * dy + (line - 1) * (4 * x) == 4 * x * (dy + line - 1);
    RowBefore(dy + line - 1, y - 1, 4 * x);
    assert 4 * x * (y - 1) + 4 * x == x * y * 4;
  }

  /** A clipped rect of an `x` by `y` image lies inside its `4 * x * y` bytes. */
  lemma RectInitFits(x: int, y: int, dx: int, dy: int, w: int, h: int)
    requires RectInit(x, y, dx, dy, w, h).Some?
    ensures Fits(RectInit(x, y, dx, dy, w, h).value, x * y * 4)
  {
    RectInitIsIntersection(x, y, dx, dy, w, h);
    var g := RectInit(x, y, dx, dy, w, h).value;
    ClipArith(x, y, Max(dx, 0), Max(dy, 0), g.width, g.line);
  }

  // ---------------------------------------------------------------------------------
  // Specification of the scans

  /** Transparent pixels at the start of row `row`, counting from column `c`. */
  function LeadFrom(img: seq<byte>, g: Region, row: int, c: int): (r: int)
    requires Fits(g, |img|) && 0 <= row < g.line && 0 <= c <= g.width
    decreases g.width - c
    ensures c <= r <= g.width
  {
    if c == g.width then g.width
    else if Opaque(img, g, row, c) then c
    else LeadFrom(img, g, row, c + 1)
  }

  /** The number of transparent pixels before the first opaque one of the row (the
      width when the row is transparent). */
  function Leading(img: seq<byte>, g: Region, row: int): int
    requires Fits(g, |img|) && 0 <= row < g.line
  {
    LeadFrom(img, g, row, 0)
  }

  /** Transparent pixels at the end of row `row`, counting from `c` pixels before its end. */
  function TrailFrom(img: seq<byte>, g: Region, row: int, c: int): (r: int)
    requires Fits(g, |img|) && 0 <= row < g.line && 0 <= c <= g.width
    decreases g.width - c
    ensures c <= r <= g.width
  {
    if c == g.width then g.width
    else if Opaque(img, g, row, g.width - 1 - c) then c
    else TrailFrom(img, g, row, c + 1)
  }

  function Trailing(img: seq<byte>, g: Region, row: int): int
    requires Fits(g, |img|) && 0 <= row < g.line
  {
    TrailFrom(img, g, row, 0)
  }

  /** Row `row` holds an opaque pixel. */
  predicate RowOpaque(img: seq<byte>, g: Region, row: int)
    requires Fits(g, |img|) && 0 <= row < g.line
  {
    Leading(img, g, row) < g.width
  }

  /** `remove_top`'s answer from row `y` on: the first row holding an opaque pixel, or
      the number of rows when there is none. */
  function TopFrom(img: seq<byte>, g: Region, y: int): (r: int)
    requires Fits(g, |img|) && 0 <= y <= g.line
    decreases g.line - y
    ensures y <= r <= g.line
  {
    if y == g.line then g.line
    else if RowOpaque(img, g, y) then y
    else TopFrom(img, g, y + 1)
  }

  function FirstOpaqueRow(img: seq<byte>, g: Region): (r: int)
    requires Fits(g, |img|)
    ensures 0 <= r <= g.line
  {
    TopFrom(img, g, 0)
  }

  /** `remove_bottom`'s answer from step `y` on: step `y` looks at row `line - 1 - y`, and
      the steps stop before row 0; when no step finds an opaque row the answer is `line`. */
  function BottomFrom(img: seq<byte>, g: Region, y: int): (r: int)
    requires Fits(g, |img|) && 0 <= y
    decreases g.line - y
    ensures r == g.line || (y <= r < g.line - 1)
  {
    if y >= g.line - 1 then g.line
    else if RowOpaque(img, g, g.line - 1 - y) then y
    else BottomFrom(img, g, y + 1)
  }

  /** `remove_left`'s `min_left` after the first `n` rows. */
  function MinLeading(img: seq<byte>, g: Region, n: int): (r: int)
    requires Fits(g, |img|) && 0 <= n <= g.line
    ensures 0 <= r <= g.width
  {
    if n == 0 then g.width else Min(MinLeading(img, g, n - 1), Leading(img, g, n - 1))
  }

  /** `remove_right`'s `min_right` after the first `n` rows. */
  function MinTrailing(img: seq<byte>, g: Region, n: int): (r: int)
    requires Fits(g, |img|) && 0 <= n <= g.line
    ensures 0 <= r <= g.width
  {
    if n == 0 then g.width else Min(MinTrailing(img, g, n - 1), Trailing(img, g, n - 1))
  }

  /** The rect after `remove_top` answered `top`. */
  function DropTop(g: Region, top: int): Region
  {
    if top < g.line then g.(ptr := g.ptr + top * g.stride, line := g.line - top) else g
  }

  /** The rect after `remove_bottom` answered `b`. */
  function DropBottom(g: Region, b: int): Region
  {
    if b < g.line then g.(line := g.line - b) else g
  }

  // ---------------------------------------------------------------------------------
  // What the scans mean

  lemma {:induction false} LeadFromSpec(img: seq<byte>, g: Region, row: int, c: int)
    requires Fits(g, |img|) && 0 <= row < g.line && 0 <= c <= g.width
    decreases g.width - c
    ensures forall k | c <= k < LeadFrom(img, g, row, c) :: !Opaque(img, g, row, k)
    ensures LeadFrom(img, g, row, c) < g.width ==> Opaque(img, g, row, LeadFrom(img, g, row, c))
  {
    if c < g.width && !Opaque(img, g, row, c) {
      LeadFromSpec(img, g, row, c + 1);
    }
  }

  /** `Leading` counts the transparent pixels before the first opaque one. */
  lemma LeadingSpec(img: seq<byte>, g: Region, row: int)
    requires Fits(g, |img|) && 0 <= row < g.line
    ensures forall k | 0 <= k < Leading(img, g, row) :: !Opaque(img, g, row, k)
    ensures Leading(img, g, row) < g.width ==> Opaque(img, g, row, Leading(img, g, row))
  {
    LeadFromSpec(img, g, row, 0);
  }

  lemma {:induction false} TrailFromSpec(img: seq<byte>, g: Region, row: int, c: int)
    requires Fits(g, |img|) && 0 <= row < g.line && 0 <= c <= g.width
    decreases g.width - c
    ensures forall col | g.width - TrailFrom(img, g, row, c) <= col < g.width - c ::
              !Opaque(img, g, row, col)
    ensures TrailFrom(img, g, row, c) < g.width ==>
              Opaque(img, g, row, g.width - 1 - TrailFrom(img, g, row, c))
  {
    if c < g.width && !Opaque(img, g, row, g.width - 1 - c) {
      TrailFromSpec(img, g, row, c + 1);
    }
  }

  /** `Trailing` counts the transparent pixels after the last opaque one. */
  lemma TrailingSpec(img: seq<byte>, g: Region, row: int)
    requires Fits(g, |img|) && 0 <= row < g.line
    ensures forall col | g.width - Trailing(img, g, row) <= col < g.width :: !Opaque(img, g, row, col)
    ensures Trailing(img, g, row) < g.width ==>
              Opaque(img, g, row, g.width - 1 - Trailing(img, g, row))
  {
    TrailFromSpec(img, g, row, 0);
  }

  /** A row is opaque exactly when some pixel of it is. */
  lemma RowOpaqueSpec(img: seq<byte>, g: Region, row: int)
    requires Fits(g, |img|) && 0 <= row < g.line
    ensures RowOpaque(img, g, row) <==> exists col | 0 <= col < g.width :: Opaque(img, g, row, col)
  {
    LeadingSpec(img, g, row);
  }

  lemma {:induction false} TopFromSpec(img: seq<byte>, g: Region, y: int)
    requires Fits(g, |img|) && 0 <= y <= g.line
    decreases g.line - y
    ensures forall row | y <= row < TopFrom(img, g, y) :: !RowOpaque(img, g, row)
    ensures TopFrom(img, g, y) < g.line ==> RowOpaque(img, g, TopFrom(img, g, y))
  {
    if y < g.line && !RowOpaque(img, g, y) {
      TopFromSpec(img, g, y + 1);
    }
  }

  /** `remove_top` answers the first opaque row: every row above it is transparent. */
  lemma FirstOpaqueRowSpec(img: seq<byte>, g: Region)
    requires Fits(g, |img|)
    ensures forall row | 0 <= row < FirstOpaqueRow(img, g) :: !RowOpaque(img, g, row)
    ensures FirstOpaqueRow(img, g) < g.line ==> RowOpaque(img, g, FirstOpaqueRow(img, g))
  {
    TopFromSpec(img, g, 0);
  }

  lemma {:induction false} BottomFromSpec(img: seq<byte>, g: Region, y: int)
    requires Fits(g, |img|) && 0 <= y
    decreases g.line - y
    ensures BottomFrom(img, g, y) < g.line ==> RowOpaque(img, g, g.line - 1 - BottomFrom(img, g, y))
    ensures forall row | g.line - 1 - Min(BottomFrom(img, g, y), g.line - 1) < row < g.line - y ::
              !RowOpaque(img, g, row)
  {
    if y < g.line - 1 && !RowOpaque(img, g, g.line - 1 - y) {
      BottomFromSpec(img, g, y + 1);
    }
  }

  /** `min_left` is at most the leading count of every row seen, and equals one of them
      unless it is still the width. */
  lemma {:induction false} MinLeadingSpec(img: seq<byte>, g: Region, n: int)
    requires Fits(g, |img|) && 0 <= n <= g.line
    ensures forall row | 0 <= row < n :: MinLeading(img, g, n) <= Leading(img, g, row)
    ensures MinLeading(img, g, n) < g.width ==>
              exists row | 0 <= row < n :: MinLeading(img, g, n) == Leading(img, g, row)
  {
    if n > 0 {
      MinLeadingSpec(img, g, n - 1);
    }
  }

  lemma {:induction false} MinTrailingSpec(img: seq<byte>, g: Region, n: int)
    requires Fits(g, |img|) && 0 <= n <= g.line
    ensures forall row | 0 <= row < n :: MinTrailing(img, g, n) <= Trailing(img, g, row)
    ensures MinTrailing(img, g, n) < g.width ==>
              exists row | 0 <= row < n :: MinTrailing(img, g, n) == Trailing(img, g, row)
  {
    if n > 0 {
      MinTrailingSpec(img, g, n - 1);
    }
  }

  /** Once `min_left` is 0 it stays 0, which is why `remove_left` may return early. */
  lemma {:induction false} MinLeadingStaysZero(img: seq<byte>, g: Region, k: int, n: int)
    requires Fits(g, |img|) && 0 <= k <= n <= g.line && MinLeading(img, g, k) == 0
    decreases n - k
    ensures MinLeading(img, g, n) == 0
  {
    if k < n {
      MinLeadingStaysZero(img, g, k, n - 1);
    }
  }

  lemma {:induction false} MinTrailingStaysZero(img: seq<byte>, g: Region, k: int, n: int)
    requires Fits(g, |img|) && 0 <= k <= n <= g.line && MinTrailing(img, g, k) == 0
    decreases n - k
    ensures MinTrailing(img, g, n) == 0
  {
    if k < n {
      MinTrailingStaysZero(img, g, k, n - 1);
    }
  }

  /** After `remove_top` the rect still fits, and its row `row` is row `row + top` before. */
  lemma DropTopSpec(img: seq<byte>, g: Region, top: int)
    requires Fits(g, |img|) && 0 <= top
    ensures Fits(DropTop(g, top), |img|)
    ensures var g1 := DropTop(g, top);
            g1.width == g.width && g1.stride == g.stride &&
            (top < g.line ==>
               && g1.line == g.line - top
               && forall row, col | 0 <= row < g1.line && 0 <= col < g.width ::
                    Index(g1, row, col) == Index(g, row + top, col))
  {
    if top < g.line {
      var g1 := DropTop(g, top);
      RowBefore(top, g.line - 1, g.stride);
      forall row, col | 0 <= row < g1.line && 0 <= col < g.width
        ensures Index(g1, row, col) == Index(g, row + top, col)
      {
        assert (row + top) * g.stride == row * g.stride + top * g.stride;
      }
      assert g1.ptr + (g1.line - 1) * g1.stride == g.ptr + (g.line - 1) * g.stride by {
        assert (g.line - 1) * g.stride == (g1.line - 1) * g.stride + top * g.stride;
      }
    }
  }

  lemma DropBottomFits(img: seq<byte>, g: Region, b: int)
    requires Fits(g, |img|) && 0 <= b
    ensures Fits(DropBottom(g, b), |img|)
  {
    if b < g.line {
      RowBefore(g.line - 1 - b, g.line - 1, g.stride);
    }
  }

  // ---------------------------------------------------------------------------------
  // image_crop as a function of its arguments

  function Default(v: Option<int>, d: int): int
  {
    if v.Some? then v.value else d
  }

  /** The part of `image_crop` after `rect_init`: `h` is the requested height. */
  function CropRect(img: seq<byte>, g: Region, h: int): (r: Option<Box>)
    requires Fits(g, |img|)
    ensures r.None? <==> FirstOpaqueRow(img, g) == h
    ensures r.Some? ==>
              && 0 <= r.value.left && r.value.left + r.value.width <= g.width
              && 0 <= r.value.top <= g.line && 0 <= r.value.height <= g.line
  {
    var top := FirstOpaqueRow(img, g);
    if top == h then None
    else
      DropTopSpec(img, g, top);
      var g1 := DropTop(g, top);
      DropBottomFits(img, g1, BottomFrom(img, g1, 0));
      var g2 := DropBottom(g1, BottomFrom(img, g1, 0));
      var left := MinLeading(img, g2, g2.line);
      var right := MinTrailing(img, g2, g2.line);
      Some(Box(left, top, g2.width - (left + right), g2.line))
  }

  /** `image_crop` once the size is checked and the defaults are filled in. */
  function CropClip(img: seq<byte>, x: int, y: int, dx: int, dy: int, w: int, h: int): (b: Option<Box>)
    requires x * y * 4 == |img|
    ensures b.Some? ==>
              && RectInit(x, y, dx, dy, w, h).Some?
              && 0 <= b.value.left && b.value.left + b.value.width <= x
              && 0 <= b.value.top <= y && 0 <= b.value.height <= y && b.value.height <= h
  {
    var r := RectInit(x, y, dx, dy, w, h);
    if r.None? then None
    else
      RectInitFits(x, y, dx, dy, w, h);
      RectInitIsIntersection(x, y, dx, dy, w, h);
      CropRect(img, r.value, h)
  }

  /** `image_crop(image, x, y [, dx, dy, w, h])` */
  function Crop(img: seq<byte>, x: int, y: int, dx: Option<int>, dy: Option<int>,
                w: Option<int>, h: Option<int>): (r: Result<Option<Box>>)
    ensures r.Err? <==> x * y * 4 != |img|
    ensures r.Ok? && r.value.Some? ==>
              && 0 <= r.value.value.left && r.value.value.left + r.value.value.width <= x
              && 0 <= r.value.value.top <= y && 0 <= r.value.value.height <= y
  {
    if x * y * 4 != |img| then Err("Invalid image size")
    else
      var dx0 := Default(dx, 0);
      var dy0 := Default(dy, 0);
      Ok(CropClip(img, x, y, dx0, dy0, Default(w, x - dx0), Default(h, y - dy0)))
  }

  lemma CropUnfold(img: seq<byte>, x: int, y: int, dx: Option<int>, dy: Option<int>,
                    w: Option<int>, h: Option<int>)
    requires x * y * 4 == |img|
    ensures Crop(img, x, y, dx, dy, w, h) ==
              Ok(CropClip(img, x, y, Default(dx, 0), Default(dy, 0),
                          Default(w, x - Default(dx, 0)), Default(h, y - Default(dy, 0))))
  {
  }

  // ---------------------------------------------------------------------------------
  // What image_crop promises

  /** Pixels of the rect after `remove_top` and `remove_bottom` are the pixels of the clipped
      rect, `top` rows further down. */
  lemma Trimmed(img: seq<byte>, g: Region, top: int, b: int)
    requires Fits(g, |img|) && 0 <= top < g.line && 0 <= b
    ensures var g2 := DropBottom(DropTop(g, top), b);
            && Fits(g2, |img|) && g2.width == g.width && g2.line <= g.line - top
            && (b >= g.line - top ==> g2.line == g.line - top)
            && (b < g.line - top ==> g2.line == g.line - top - b)
            && forall row, col | 0 <= row < g2.line && 0 <= col < g2.width ::
                 Opaque(img, g2, row, col) == Opaque(img, g, row + top, col)
  {
    DropTopSpec(img, g, top);
    DropBottomFits(img, DropTop(g, top), b);
  }

  /** A pixel is opaque only in an opaque row. */
  lemma OpaqueRow(img: seq<byte>, g: Region, row: int, col: int)
    requires Fits(g, |img|) && 0 <= row < g.line && 0 <= col < g.width && Opaque(img, g, row, col)
    ensures RowOpaque(img, g, row)
  {
    LeadingSpec(img, g, row);
  }

  /** In the rect that is left, the box returned covers every opaque pixel of row `row`. */
  lemma ColumnsCovered(img: seq<byte>, g2: Region, row: int, col: int)
    requires Fits(g2, |img|) && 0 <= row < g2.line && 0 <= col < g2.width
    requires Opaque(img, g2, row, col)
    ensures MinLeading(img, g2, g2.line) <= col < g2.width - MinTrailing(img, g2, g2.line)
  {
    LeadingSpec(img, g2, row);
    TrailingSpec(img, g2, row);
    MinLeadingSpec(img, g2, g2.line);
    MinTrailingSpec(img, g2, g2.line);
  }

  /** `image_crop` never cuts off an opaque pixel: every opaque pixel of the clipped rect
      lies inside the box it returns, and when the clipped rect holds one (its height
      never exceeds the requested one) a box is returned. */
  lemma CropRectSound(img: seq<byte>, g: Region, h: int, row: int, col: int)
    requires Fits(g, |img|) && 0 <= row < g.line && 0 <= col < g.width && Opaque(img, g, row, col)
    ensures g.line <= h ==> CropRect(img, g, h).Some?
    ensures CropRect(img, g, h).Some? ==>
              var b := CropRect(img, g, h).value;
              b.top <= row < b.top + b.height && b.left <= col < b.left + b.width
  {
    var top := FirstOpaqueRow(img, g);
    FirstOpaqueRowSpec(img, g);
    OpaqueRow(img, g, row, col);
    if top != h {
      DropTopSpec(img, g, top);
      var g1 := DropTop(g, top);
      var b0 := BottomFrom(img, g1, 0);
      BottomFromSpec(img, g1, 0);
      Trimmed(img, g, top, b0);
      var g2 := DropBottom(g1, b0);
      OpaqueRow(img, g1, row - top, col);
      assert row - top < g2.line;
      assert Opaque(img, g2, row - top, col);
      ColumnsCovered(img, g2, row - top, col);
    }
  }

  /** Hence a clipped rect holding an opaque pixel crops to a box at least one pixel wide
      and high. */
  lemma CropRectNonEmpty(img: seq<byte>, g: Region, h: int, row: int, col: int)
    requires Fits(g, |img|) && 0 <= row < g.line && 0 <= col < g.width && Opaque(img, g, row, col)
    requires g.line <= h
    ensures CropRect(img, g, h).Some?
    ensures CropRect(img, g, h).value.width >= 1 && CropRect(img, g, h).value.height >= 1
  {
    CropRectSound(img, g, h, row, col);
  }

  /** The height `image_crop` compares `top` with never is below the clipped height. */
  lemma RequestedHeightBound(x: int, y: int, dx: int, dy: int, w: int, h: int)
    requires RectInit(x, y, dx, dy, w, h).Some?
    ensures RectInit(x, y, dx, dy, w, h).value.line <= h
  {
    RectInitIsIntersection(x, y, dx, dy, w, h);
  }

  /** A row without an opaque pixel has leading and trailing counts equal to the width. */
  lemma TransparentRow(img: seq<byte>, g: Region, row: int)
    requires Fits(g, |img|) && 0 <= row < g.line
    requires forall col | 0 <= col < g.width :: !Opaque(img, g, row, col)
    ensures Leading(img, g, row) == g.width && Trailing(img, g, row) == g.width
  {
    LeadingSpec(img, g, row);
    TrailingSpec(img, g, row);
  }

  /** As written, a transparent clipped rect that is shorter than the requested height is
      not rejected: here a transparent `x` by 1 image cropped with `h = 2`. `remove_top`
      answers the clipped height 1, which is not `h`, and the box comes out `x` pixels
      wide to the negative. */
  lemma CropNegativeWidth(img: seq<byte>, x: int)
    requires 1 <= x && |img| == 4 * x
    requires forall i | 0 <= i < |img| :: img[i] == 0
    ensures Crop(img, x, 1, None, None, None, Some(2)) == Ok(Some(Box(x, 1, -x, 1)))
  {
    var g := Region(0, 4 * x, x, 1);
    assert RectInit(x, 1, 0, 0, x, 2) == Some(g);
    forall col | 0 <= col < x
      ensures !Opaque(img, g, 0, col)
    {
      IndexInside(g, |img|, 0, col);
    }
    TransparentRow(img, g, 0);
    assert TopFrom(img, g, 1) == 1;
    assert FirstOpaqueRow(img, g) == 1;
    assert DropTop(g, 1) == g;
    assert BottomFrom(img, g, 0) == 1;
    assert MinLeading(img, g, 1) == x;
    assert MinTrailing(img, g, 1) == x;
  }

  /** As written, `remove_bottom` never looks at row 0, so when row 0 is the only opaque
      row the transparent rows under it are kept: here an `x` by 2 image whose first row
      is opaque and whose second row is transparent keeps both rows. */
  lemma CropKeepsTransparentBottom(img: seq<byte>, x: int)
    requires 1 <= x && |img| == 8 * x
    requires forall i | 0 <= i < |img| :: img[i] == if i < 4 * x then 255 else 0
    ensures Crop(img, x, 2, None, None, None, None) == Ok(Some(Box(0, 0, x, 2)))
    ensures !RowOpaque(img, Region(0, 4 * x, x, 2), 1)
  {
    var g := Region(0, 4 * x, x, 2);
    assert RectInit(x, 2, 0, 0, x, 2) == Some(g);
    assert Fits(g, |img|);
    forall col | 0 <= col < x
      ensures !Opaque(img, g, 1, col)
    {
      IndexInside(g, |img|, 1, col);
    }
    TransparentRow(img, g, 1);
    IndexInside(g, |img|, 0, 0);
    assert Opaque(img, g, 0, 0);
    IndexInside(g, |img|, 0, x - 1);
    assert Opaque(img, g, 0, x - 1);
    assert Leading(img, g, 0) == 0;
    assert Trailing(img, g, 0) == 0;
    assert FirstOpaqueRow(img, g) == 0;
    assert DropTop(g, 0) == g;
    assert BottomFrom(img, g, 0) == 2;
    assert MinLeading(img, g, 2) == 0;
    assert MinTrailing(img, g, 2) == 0;
  }

  /** `remove_bottom` as intended: the steps go on to row 0. */
  function BottomFixedFrom(img: seq<byte>, g: Region, y: int): (r: int)
    requires Fits(g, |img|) && 0 <= y <= g.line
    decreases g.line - y
    ensures y <= r <= g.line
  {
    if y == g.line then g.line
    else if RowOpaque(img, g, g.line - 1 - y) then y
    else BottomFixedFrom(img, g, y + 1)
  }

  lemma {:induction false} BottomFixedFromSpec(img: seq<byte>, g: Region, y: int)
    requires Fits(g, |img|) && 0 <= y <= g.line
    decreases g.line - y
    ensures BottomFixedFrom(img, g, y) < g.line ==>
              RowOpaque(img, g, g.line - 1 - BottomFixedFrom(img, g, y))
    ensures forall row | g.line - 1 - BottomFixedFrom(img, g, y) < row < g.line - y ::
              !RowOpaque(img, g, row)
  {
    if y < g.line && !RowOpaque(img, g, g.line - 1 - y) {
      BottomFixedFromSpec(img, g, y + 1);
    }
  }

  /** The rect after `remove_top`, with the pixels it keeps. */
  function TopTrimmed(img: seq<byte>, g: Region): (g1: Region)
    requires Fits(g, |img|)
    ensures g1 == DropTop(g, FirstOpaqueRow(img, g))
    ensures Fits(g1, |img|) && g1.width == g.width
    ensures FirstOpaqueRow(img, g) < g.line ==> g1.line == g.line - FirstOpaqueRow(img, g)
    ensures FirstOpaqueRow(img, g) < g.line ==>
              forall row, col | 0 <= row < g1.line && 0 <= col < g1.width ::
                Opaque(img, g1, row, col) == Opaque(img, g, row + FirstOpaqueRow(img, g), col)
  {
    DropTopSpec(img, g, FirstOpaqueRow(img, g));
    DropTop(g, FirstOpaqueRow(img, g))
  }

  /** The crop as intended: a transparent rect gives no box (compare `top` with the clipped
      height, not the requested one), and the bottom scan reaches row 0. */
  function CropFixed(img: seq<byte>, g: Region): Option<Box>
    requires Fits(g, |img|)
  {
    var top := FirstOpaqueRow(img, g);
    if top == g.line then None
    else
      var g1 := TopTrimmed(img, g);
      var b0 := BottomFixedFrom(img, g1, 0);
      DropBottomFits(img, g1, b0);
      var g2 := DropBottom(g1, b0);
      var left := MinLeading(img, g2, g2.line);
      var right := MinTrailing(img, g2, g2.line);
      Some(Box(left, top, g2.width - (left + right), g2.line))
  }

  /** The corrected crop returns no box exactly for a transparent rect. */
  lemma CropFixedNone(img: seq<byte>, g: Region)
    requires Fits(g, |img|)
    ensures CropFixed(img, g).None? <==> forall row | 0 <= row < g.line :: !RowOpaque(img, g, row)
  {
    FirstOpaqueRowSpec(img, g);
  }

  /** Column `col` holds an opaque pixel. */
  predicate ColumnOpaque(img: seq<byte>, g: Region, col: int)
    requires Fits(g, |img|) && 0 <= col < g.width
  {
    exists row | 0 <= row < g.line :: Opaque(img, g, row, col)
  }

  /** After `remove_top` found an opaque row, the corrected bottom scan stops on an opaque
      row at or below row 0. */
  lemma CropFixedBottom(img: seq<byte>, g: Region)
    requires Fits(g, |img|) && FirstOpaqueRow(img, g) < g.line
    ensures var g1 := TopTrimmed(img, g);
            && BottomFixedFrom(img, g1, 0) < g1.line
            && RowOpaque(img, g1, g1.line - 1 - BottomFixedFrom(img, g1, 0))
  {
    var top := FirstOpaqueRow(img, g);
    FirstOpaqueRowSpec(img, g);
    var g1 := TopTrimmed(img, g);
    BottomFixedFromSpec(img, g1, 0);
    RowOpaqueSpec(img, g, top);
    var c0 :| 0 <= c0 < g.width && Opaque(img, g, top, c0);
    assert Opaque(img, g1, 0, c0);
    OpaqueRow(img, g1, 0, c0);
  }

  /** The corrected crop keeps every opaque pixel, and returns a box for any rect that
      holds one. */
  lemma CropFixedSound(img: seq<byte>, g: Region, row: int, col: int)
    requires Fits(g, |img|) && 0 <= row < g.line && 0 <= col < g.width && Opaque(img, g, row, col)
    ensures CropFixed(img, g).Some?
    ensures var b := CropFixed(img, g).value;
            b.top <= row < b.top + b.height && b.left <= col < b.left + b.width
  {
    FirstOpaqueRowSpec(img, g);
    OpaqueRow(img, g, row, col);
    var top := FirstOpaqueRow(img, g);
    var g1 := TopTrimmed(img, g);
    var b0 := BottomFixedFrom(img, g1, 0);
    BottomFixedFromSpec(img, g1, 0);
    DropBottomFits(img, g1, b0);
    var g2 := DropBottom(g1, b0);
    assert Opaque(img, g1, row - top, col);
    OpaqueRow(img, g1, row - top, col);
    assert Opaque(img, g2, row - top, col);
    ColumnsCovered(img, g2, row - top, col);
  }

  /** The corrected box is not empty, lies in the rect, and its top and bottom rows are
      opaque. */
  lemma CropFixedRows(img: seq<byte>, g: Region)
    requires Fits(g, |img|) && CropFixed(img, g).Some?
    ensures var b := CropFixed(img, g).value;
            && 1 <= b.width && 1 <= b.height
            && 0 <= b.left && b.left + b.width <= g.width
            && 0 <= b.top && b.top + b.height <= g.line
            && RowOpaque(img, g, b.top)
            && RowOpaque(img, g, b.top + b.height - 1)
  {
    var top := FirstOpaqueRow(img, g);
    FirstOpaqueRowSpec(img, g);
    CropFixedBottom(img, g);
    var g1 := TopTrimmed(img, g);
    var b0 := BottomFixedFrom(img, g1, 0);
    var b := CropFixed(img, g).value;
    RowOpaqueSpec(img, g, top);
    var c0 :| 0 <= c0 < g.width && Opaque(img, g, top, c0);
    CropFixedSound(img, g, top, c0);
    RowOpaqueSpec(img, g1, g1.line - 1 - b0);
    var cb :| 0 <= cb < g.width && Opaque(img, g1, g1.line - 1 - b0, cb);
    assert Opaque(img, g, b.top + b.height - 1, cb);
    OpaqueRow(img, g, b.top + b.height - 1, cb);
  }

  /** Unless it is the width, `min_left` is the column of some opaque pixel. */
  lemma LeftEdge(img: seq<byte>, g: Region)
    requires Fits(g, |img|) && MinLeading(img, g, g.line) < g.width
    ensures ColumnOpaque(img, g, MinLeading(img, g, g.line))
  {
    MinLeadingSpec(img, g, g.line);
    var row :| 0 <= row < g.line && MinLeading(img, g, g.line) == Leading(img, g, row);
    LeadingSpec(img, g, row);
  }

  /** Unless it is the width, `min_right` counts the columns after some opaque pixel. */
  lemma RightEdge(img: seq<byte>, g: Region)
    requires Fits(g, |img|) && MinTrailing(img, g, g.line) < g.width
    ensures ColumnOpaque(img, g, g.width - 1 - MinTrailing(img, g, g.line))
  {
    MinTrailingSpec(img, g, g.line);
    var row :| 0 <= row < g.line && MinTrailing(img, g, g.line) == Trailing(img, g, row);
    TrailingSpec(img, g, row);
  }

  /** The left column of the corrected box holds an opaque pixel. */
  lemma CropFixedLeft(img: seq<byte>, g: Region)
    requires Fits(g, |img|) && CropFixed(img, g).Some?
    ensures var b := CropFixed(img, g).value;
            0 <= b.left < g.width && ColumnOpaque(img, g, b.left)
  {
    CropFixedRows(img, g);
    var top := FirstOpaqueRow(img, g);
    var g1 := TopTrimmed(img, g);
    var b0 := BottomFixedFrom(img, g1, 0);
    DropBottomFits(img, g1, b0);
    var g2 := DropBottom(g1, b0);
    var b := CropFixed(img, g).value;
    LeftEdge(img, g2);
    var row :| 0 <= row < g2.line && Opaque(img, g2, row, b.left);
    assert Opaque(img, g1, row, b.left);
    assert Opaque(img, g, row + top, b.left);
  }

  /** The right column of the corrected box holds an opaque pixel. */
  lemma CropFixedRight(img: seq<byte>, g: Region)
    requires Fits(g, |img|) && CropFixed(img, g).Some?
    ensures var b := CropFixed(img, g).value;
            0 <= b.left + b.width - 1 < g.width && ColumnOpaque(img, g, b.left + b.width - 1)
  {
    CropFixedRows(img, g);
    var top := FirstOpaqueRow(img, g);
    var g1 := TopTrimmed(img, g);
    var b0 := BottomFixedFrom(img, g1, 0);
    DropBottomFits(img, g1, b0);
    var g2 := DropBottom(g1, b0);
    var b := CropFixed(img, g).value;
    RightEdge(img, g2);
    var row :| 0 <= row < g2.line && Opaque(img, g2, row, b.left + b.width - 1);
    assert Opaque(img, g1, row, b.left + b.width - 1);
    assert Opaque(img, g, row + top, b.left + b.width - 1);
  }

  // ---------------------------------------------------------------------------------
  // The rect and its scans

  class Rect {
    var ptr: int
    var stride: int
    var width: int
    var line: int

    function Value(): Region
      reads this
    {
      Region(ptr, stride, width, line)
    }

    /** `struct rect r;` */
    constructor ()
      ensures Value() == Region(0, 0, 0, 0)
    {
      ptr, stride, width, line := 0, 0, 0, 0;
    }

    /** `rect_init`: on success the fields hold the clipped rect, otherwise they are
        left as they were. */
    method Init(x: int, y: int, dx: int, dy: int, w: int, h: int) returns (ok: bool)
      modifies this
      ensures ok == RectInit(x, y, dx, dy, w, h).Some?
      ensures ok ==> Value() == RectInit(x, y, dx, dy, w, h).value
      ensures !ok ==> Value() == old(Value())
    {
      var dx, dy, w, h := dx, dy, w, h;
      if dx < 0 {
        w := w + dx;
        dx := 0;
      } else if dx > x {
        return false;
      }
      if dy < 0 {
        h := h + dy;
        dy := 0;
      } else if dy > y {
        return false;
      }
      if w + dx > x {
        w := x - dx;
      }
      if h + dy > y {
        h := y - dy;
      }
      if w <= 0 || h <= 0 {
        return false;
      }
      ptr := x * 4 * dy + 4 * dx;
      stride := 4 * x;
      width := w;
      line := h;
      return true;
    }

    /** `remove_top` */
    method RemoveTop(img: seq<byte>) returns (top: int)
      requires Fits(Value(), |img|)
      modifies this
      ensures top == FirstOpaqueRow(img, old(Value()))
      ensures Value() == DropTop(old(Value()), top)
    {
      ghost var g := Value();
      var p := ptr;
      var y := 0;
      while y < line
        invariant Value() == g
        invariant 0 <= y <= g.line
        invariant p == Index(g, y, 0)
        invariant TopFrom(img, g, y) == FirstOpaqueRow(img, g)
      {
        var x := ScanLeading(img, Value(), y, p, width);
        if x < width {
          ptr := p;
          line := line - y;
          return y;
        }
        p := p + stride;
        RowStep(y, g.stride);
        y := y + 1;
      }
      return line;
    }

    /** `remove_bottom`: scans upwards from the last row, but never looks at row 0. */
    method RemoveBottom(img: seq<byte>) returns (b: int)
      requires Fits(Value(), |img|)
      modifies this
      ensures b == BottomFrom(img, old(Value()), 0)
      ensures Value() == DropBottom(old(Value()), b)
    {
      ghost var g := Value();
      var p := ptr + (line - 1) * stride;
      var y := 0;
      while y < line - 1
        invariant Value() == g
        invariant 0 <= y
        invariant y < g.line ==> p == Index(g, g.line - 1 - y, 0)
        invariant BottomFrom(img, g, y) == BottomFrom(img, g, 0)
      {
        var x := ScanLeading(img, Value(), line - 1 - y, p, width);
        if x < width {
          line := line - y;
          return y;
        }
        RowStep(g.line - 2 - y, g.stride);
        p := p - stride;
        y := y + 1;
      }
      return line;
    }

    /** `remove_left`: the fewest transparent pixels any row starts with. */
    method RemoveLeft(img: seq<byte>) returns (left: int)
      requires Fits(Value(), |img|)
      ensures left == MinLeading(img, Value(), line)
    {
      var p := ptr;
      var minLeft := width;
      var y := 0;
      while y < line
        invariant 0 <= y <= line
        invariant p == Index(Value(), y, 0)
        invariant minLeft == MinLeading(img, Value(), y)
      {
        var x := ScanLeading(img, Value(), y, p, minLeft);
        if x == 0 {
          MinLeadingStaysZero(img, Value(), y + 1, line);
          return 0;
        } else if x < minLeft {
          minLeft := x;
        }
        p := p + stride;
        RowStep(y, stride);
        y := y + 1;
      }
      return minLeft;
    }

    /** `remove_right`: the fewest transparent pixels any row ends with. */
    method RemoveRight(img: seq<byte>) returns (right: int)
      requires Fits(Value(), |img|)
      ensures right == MinTrailing(img, Value(), line)
    {
      var p := ptr + width * 4;
      var minRight := width;
      var y := 0;
      while y < line
        invariant 0 <= y <= line
        invariant p == Index(Value(), y, width)
        invariant minRight == MinTrailing(img, Value(), y)
      {
        var x := ScanTrailing(img, Value(), y, p, minRight);
        if x == 0 {
          MinTrailingStaysZero(img, Value(), y + 1, line);
          return 0;
        } else if x < minRight {
          minRight := x;
        }
        p := p + stride;
        RowStep(y, stride);
        y := y + 1;
      }
      return minRight;
    }
  }

  /** The inner loop of `remove_top`, `remove_bottom` and `remove_left`: walk row `row`
      from its first pixel (at byte `p`) until an opaque pixel or `bound` pixels. */
  method ScanLeading(img: seq<byte>, g: Region, row: int, p: int, bound: int) returns (x: int)
    requires Fits(g, |img|) && 0 <= row < g.line && p == Index(g, row, 0)
    requires 0 <= bound <= g.width
    ensures x == Min(Leading(img, g, row), bound)
  {
    var cur := p;
    x := 0;
    while x < bound
      invariant 0 <= x <= bound
      invariant cur == Index(g, row, x)
      invariant LeadFrom(img, g, row, x) == Leading(img, g, row)
    {
      IndexInside(g, |img|, row, x);
      if img[cur + 3] != 0 {
        break;
      }
      cur := cur + 4;
      x := x + 1;
    }
  }

  /** The inner loop of `remove_right`: walk row `row` backwards from just past its last
      pixel (at byte `p`) until an opaque pixel or `bound` pixels. */
  method ScanTrailing(img: seq<byte>, g: Region, row: int, p: int, bound: int) returns (x: int)
    requires Fits(g, |img|) && 0 <= row < g.line && p == Index(g, row, g.width)
    requires 0 <= bound <= g.width
    ensures x == Min(Trailing(img, g, row), bound)
  {
    var cur := p;
    x := 0;
    while x < bound
      invariant 0 <= x <= bound
      invariant cur == Index(g, row, g.width - x)
      invariant TrailFrom(img, g, row, x) == Trailing(img, g, row)
    {
      cur := cur - 4;
      IndexInside(g, |img|, row, g.width - 1 - x);
      if img[cur + 3] != 0 {
        break;
      }
      x := x + 1;
    }
  }

  /** `image_crop` */
  method ImageCrop(img: seq<byte>, x: int, y: int, dx: Option<int>, dy: Option<int>,
                   w: Option<int>, h: Option<int>) returns (r: Result<Option<Box>>)
    ensures r == Crop(img, x, y, dx, dy, w, h)
  {
    if x * y * 4 != |img| {
      return Err("Invalid image size");
    }
    var dx0 := Default(dx, 0);
    var dy0 := Default(dy, 0);
    CropUnfold(img, x, y, dx, dy, w, h);
    var b := ClipAndTrim(img, x, y, dx0, dy0, Default(w, x - dx0), Default(h, y - dy0));
    return Ok(b);
  }

  /** `image_crop` from `rect_init` on. */
  method ClipAndTrim(img: seq<byte>, x: int, y: int, dx: int, dy: int, w: int, h: int)
    returns (b: Option<Box>)
    requires x * y * 4 == |img|
    ensures b == CropClip(img, x, y, dx, dy, w, h)
  {
    var rect := new Rect();
    var ok := rect.Init(x, y, dx, dy, w, h);
    if !ok {
      return None;
    }
    RectInitFits(x, y, dx, dy, w, h);
    b := TrimRect(img, rect, h);
  }

  /** `image_crop` after `rect_init` succeeded: the four scans. */
  method TrimRect(img: seq<byte>, rect: Rect, h: int) returns (b: Option<Box>)
    requires Fits(rect.Value(), |img|)
    modifies rect
    ensures b == CropRect(img, old(rect.Value()), h)
  {
    ghost var g := rect.Value();
    var top := rect.RemoveTop(img);
    if top == h {
      return None;
    }
    DropTopSpec(img, g, top);
    ghost var g1 := rect.Value();
    var bottom := rect.RemoveBottom(img);
    DropBottomFits(img, g1, bottom);
    var left := rect.RemoveLeft(img);
    var right := rect.RemoveRight(img);
    return Some(Box(left, top, rect.width - (left + right), rect.line));
  }
}
