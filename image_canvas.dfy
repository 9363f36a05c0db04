/** Canvases of src/image.c: `struct canvas`, `image_canvas`, `get_image_buffer`,
    `limage_tocanvas` and `canvas_blit`. A canvas is a window on a byte buffer: the byte
    offset of its first pixel, its width and height in RGBA8 pixels, and its stride. */
module ImageCanvas {
  import opened Wrappers
  import opened ImageBytes

  /** The Lua type of the value a canvas is made from. */
  datatype BufferKind = StringBuffer | FullUserdata | LightUserdata | NotBuffer

  /** `struct canvas`, with the type of the buffer it keeps as user value. */
  datatype Canvas = Canvas(kind: BufferKind, offset: int, width: int, height: int, stride: int)

  /** The arguments after width and height: an optional stride, or a sub-rectangle. */
  datatype CanvasArgs = Whole(stride: Option<int>) | Sub(x: int, y: int, w: int, h: int)

  /** Every pixel of the canvas lies inside a buffer of `size` bytes, and its rows do not
      overlap (an empty canvas fits anywhere). */
  predicate CanvasFits(c: Canvas, size: int)
  {
    c.width <= 0 || c.height <= 0 ||
    (0 <= c.offset && 4 * c.width <= c.stride && c.offset + (c.height - 1) * c.stride + 4 * c.width <= size)
  }

  /** Offset of the first byte of pixel (col, row). */
  function PixelByte(c: Canvas, row: int, col: int): int
  {
    c.offset + row * c.stride + 4 * col
  }

  /** Bytes `4 * col` to `4 * (col + n)` of row `row` of a fitting canvas lie in the buffer. */
  lemma RowInside(c: Canvas, size: int, row: int, col: int, n: int)
    requires CanvasFits(c, size) && 0 <= row < c.height && 0 <= col && 0 <= n && col + n <= c.width
    requires 0 < c.width
    ensures 0 <= PixelByte(c, row, col) && PixelByte(c, row, col) + 4 * n <= size
  {
    RowBefore(row, c.height - 1, c.stride);
  }

  // ---------------------------------------------------------------------------------
  // image_canvas

  /** `image_canvas(buffer, width, height [, stride | x, y, w, h])`; `size` is the length
      of a string buffer (the length of a userdata is never looked at). The string size check
      compares the `int` product `stride * (y + h)` with the unsigned length, so a negative
      product, converted to a huge unsigned value, fails it too. */
  function MakeCanvas(kind: BufferKind, size: int, width: int, height: int, args: CanvasArgs): (r: Result<Canvas>)
    ensures kind == NotBuffer ==> r == Err("Need buffer")
    ensures r.Ok? ==> r.value.kind == kind
    ensures r.Ok? && args.Whole? ==>
              && r.value.offset == 0 && r.value.width == width && r.value.height == height
              && (args.stride.None? ==> r.value.stride == 4 * width)
  {
    if kind == NotBuffer then Err("Need buffer")
    else if args.Sub? && (args.x < 0 || args.y < 0 || args.x + args.w > width || args.y + args.h > height) then
      Err("Invalid rect")
    else
      var x := if args.Sub? then args.x else 0;
      var y := if args.Sub? then args.y else 0;
      var stride := if args.Whole? && args.stride.Some? then args.stride.value else width * 4;
      var w := if args.Sub? then args.w else width;
      var h := if args.Sub? then args.h else height;
      if kind == StringBuffer && !(0 <= stride * (y + h) <= size) then Err("Invalid buffer size")
      else Ok(Canvas(kind, y * stride + x * 4, w, h, stride))
  }

  /** A sub-rectangle canvas is accepted exactly when the rectangle lies in the image and,
      for a string, its last row ends inside the string; it then starts at pixel (x, y)
      with the rectangle's size and the image's stride. */
  lemma SubCanvasSpec(kind: BufferKind, size: int, width: int, height: int, x: int, y: int, w: int, h: int)
    ensures MakeCanvas(kind, size, width, height, Sub(x, y, w, h)).Ok? <==>
              && kind != NotBuffer
              && 0 <= x && 0 <= y && x + w <= width && y + h <= height
              && (kind == StringBuffer ==> 0 <= 4 * width * (y + h) <= size)
    ensures MakeCanvas(kind, size, width, height, Sub(x, y, w, h)).Ok? ==>
              MakeCanvas(kind, size, width, height, Sub(x, y, w, h)).value ==
                Canvas(kind, 4 * width * y + 4 * x, w, h, 4 * width)
  {
  }

  /** A sub-rectangle string canvas lies inside the string. */
  lemma SubCanvasFits(size: int, width: int, height: int, x: int, y: int, w: int, h: int)
    requires MakeCanvas(StringBuffer, size, width, height, Sub(x, y, w, h)).Ok?
    ensures CanvasFits(MakeCanvas(StringBuffer, size, width, height, Sub(x, y, w, h)).value, size)
  {
    SubCanvasSpec(StringBuffer, size, width, height, x, y, w, h);
    var c := MakeCanvas(StringBuffer, size, width, height, Sub(x, y, w, h)).value;
    if 0 < w && 0 < h {
      assert c.offset + (c.height - 1) * c.stride == 4 * width * (y + h - 1) + 4 * x;
      RowBefore(y + h - 1, y + h, 4 * width);
      assert 4 * width * (y + h - 1) + 4 * width == 4 * width * (y + h);
    }
  }

  /** As written, the size check of a string canvas multiplies the stride by the height, so
      a stride given smaller than a row passes it: a 4-byte string accepted as a 10 by 1
      canvas of stride 4, whose row needs 40 bytes. */
  lemma NarrowStrideAccepted()
    ensures MakeCanvas(StringBuffer, 4, 10, 1, Whole(Some(4))) == Ok(Canvas(StringBuffer, 0, 10, 1, 4))
    ensures !CanvasFits(Canvas(StringBuffer, 0, 10, 1, 4), 4)
  {
  }

  /** `image_canvas` with the string size check it evidently means: the canvas's last row
      must end inside the string. */
  function MakeCanvasFixed(kind: BufferKind, size: int, width: int, height: int, args: CanvasArgs): Result<Canvas>
  {
    var c := MakeCanvas(kind, size, width, height, args);
    if c.Ok? && kind == StringBuffer && !CanvasFits(c.value, size) then Err("Invalid buffer size")
    else c
  }

  /** With the fixed check every string canvas lies inside its string, and every canvas the
      fixed check accepts is one `image_canvas` accepts too. */
  lemma MakeCanvasFixedFits(kind: BufferKind, size: int, width: int, height: int, args: CanvasArgs)
    ensures MakeCanvasFixed(kind, size, width, height, args).Ok? ==>
              && MakeCanvas(kind, size, width, height, args) == MakeCanvasFixed(kind, size, width, height, args)
              && (kind == StringBuffer ==> CanvasFits(MakeCanvasFixed(kind, size, width, height, args).value, size))
    ensures args.Sub? ==> MakeCanvasFixed(kind, size, width, height, args) == MakeCanvas(kind, size, width, height, args)
  {
    if args.Sub? && kind == StringBuffer && MakeCanvas(kind, size, width, height, args).Ok? {
      SubCanvasFits(size, width, height, args.x, args.y, args.w, args.h);
    }
  }

  // ---------------------------------------------------------------------------------
  // Image userdata

  /** The Lua value an image method is called on: whether it is a userdata with a metatable,
      the `width` and `height` fields of that metatable when they are numbers, and the raw
      length of the userdata. */
  datatype ImageValue = ImageValue(isImage: bool, width: Option<int>, height: Option<int>, rawLen: int)

  /** `get_image_buffer`: the image's width and height. */
  function GetImageBuffer(v: ImageValue): (r: Result<(int, int)>)
    ensures r.Ok? ==> r.value.0 * r.value.1 * 4 == v.rawLen
  {
    if !v.isImage then Err("Neet image userdata")
    else if v.width.None? then Err("No .width")
    else if v.height.None? then Err("No .height")
    else if v.width.value * v.height.value * 4 != v.rawLen then Err("Invalid size")
    else Ok((v.width.value, v.height.value))
  }

  /** `get_image_buffer` accepts exactly an image whose fields give its length. */
  lemma GetImageBufferSpec(v: ImageValue)
    ensures GetImageBuffer(v).Ok? <==>
              v.isImage && v.width.Some? && v.height.Some? && v.width.value * v.height.value * 4 == v.rawLen
  {
  }

  /** `limage_tocanvas`: a canvas on the whole image. */
  function ToCanvas(v: ImageValue): (r: Result<Canvas>)
    ensures r.Ok? <==> GetImageBuffer(v).Ok?
    ensures r.Ok? ==> r.value.kind == FullUserdata && r.value.offset == 0
  {
    var b := GetImageBuffer(v);
    if b.Err? then Err(b.error)
    else Ok(Canvas(FullUserdata, 0, b.value.0, b.value.1, b.value.0 * 4))
  }

  /** The canvas of an image covers its buffer exactly. */
  lemma ToCanvasFits(v: ImageValue)
    requires ToCanvas(v).Ok?
    ensures CanvasFits(ToCanvas(v).value, v.rawLen)
    ensures ToCanvas(v).value.stride == 4 * ToCanvas(v).value.width
  {
    var c := ToCanvas(v).value;
    if 0 < c.width && 0 < c.height {
      assert (c.height - 1) * c.stride + 4 * c.width == c.width * c.height * 4;
    }
  }

  // ---------------------------------------------------------------------------------
  // canvas_blit

  /** Where `canvas_blit` copies to: top-left pixel (x, y) of the destination, from pixel
      (sx, sy) of the source, `w` by `h` pixels. */
  datatype Clip = Clip(x: int, y: int, sx: int, sy: int, w: int, h: int)

  /** The clipping of `canvas_blit`: None when nothing is left to copy. */
  function BlitClip(dst: Canvas, src: Canvas, x: int, y: int): (r: Option<Clip>)
    ensures r.Some? ==>
              && 0 < r.value.w && 0 < r.value.h && 0 <= r.value.x && 0 <= r.value.y
              && r.value.x + r.value.w <= dst.width && r.value.y + r.value.h <= dst.height
  {
    var (w1, sx, x1) := if x < 0 then (src.width + x, -x, 0) else (src.width, 0, x);
    var (h1, sy, y1) := if y < 0 then (src.height + y, -y, 0) else (src.height, 0, y);
    var w := if x1 + w1 > dst.width then dst.width - x1 else w1;
    var h := if y1 + h1 > dst.height then dst.height - y1 else h1;
    if w <= 0 || h <= 0 then None else Some(Clip(x1, y1, sx, sy, w, h))
  }

  /** The clip is the overlap of the source placed at (x, y) with the destination, and the
      source pixels copied are the ones placed there. */
  lemma BlitClipIsOverlap(dst: Canvas, src: Canvas, x: int, y: int)
    ensures BlitClip(dst, src, x, y).Some? <==>
              && (if x < 0 then 0 else x) < (if x + src.width < dst.width then x + src.width else dst.width)
              && (if y < 0 then 0 else y) < (if y + src.height < dst.height then y + src.height else dst.height)
    ensures BlitClip(dst, src, x, y).Some? ==>
              var c := BlitClip(dst, src, x, y).value;
              && c.x == (if x < 0 then 0 else x) && c.y == (if y < 0 then 0 else y)
              && c.x + c.w == (if x + src.width < dst.width then x + src.width else dst.width)
              && c.y + c.h == (if y + src.height < dst.height then y + src.height else dst.height)
              && c.sx == c.x - x && c.sy == c.y - y
  {
  }

  /** The clipped rectangle lies in both canvases. */
  lemma BlitClipInside(dst: Canvas, src: Canvas, x: int, y: int)
    requires BlitClip(dst, src, x, y).Some?
    ensures var c := BlitClip(dst, src, x, y).value;
            && 0 <= c.x && c.x + c.w <= dst.width && 0 <= c.y && c.y + c.h <= dst.height
            && 0 <= c.sx && c.sx + c.w <= src.width && 0 <= c.sy && c.sy + c.h <= src.height
            && 0 < c.w && 0 < c.h
  {
  }

  /** Byte offset of row `i` of a copy that starts at `pos`: the pointer after `i` steps of
      `stride`, as the loop of `canvas_blit` advances it. */
  function RowStart(pos: int, stride: int, i: int): int
    decreases i
  {
    if i <= 0 then pos else RowStart(pos, stride, i - 1) + stride
  }

  /** After `i` steps the pointer has advanced `i * stride` bytes. */
  lemma {:induction false} RowStartIsProduct(pos: int, stride: int, i: int)
    requires 0 <= i
    ensures RowStart(pos, stride, i) == pos + i * stride
  {
    if 0 < i {
      RowStartIsProduct(pos, stride, i - 1);
      RowStep(i - 1, stride);
    }
  }

  /** `d` with the bytes from `pos` on replaced by `b`: one `memcpy`. */
  function Splice(d: seq<byte>, pos: int, b: seq<byte>): (r: seq<byte>)
    requires 0 <= pos && pos + |b| <= |d|
    ensures |r| == |d|
  {
    d[..pos] + b + d[pos + |b|..]
  }

  lemma SpliceAt(d: seq<byte>, pos: int, b: seq<byte>, k: int)
    requires 0 <= pos && pos + |b| <= |d| && 0 <= k < |d|
    ensures Splice(d, pos, b)[k] == if pos <= k < pos + |b| then b[k - pos] else d[k]
  {
  }

  /** `n` rows of `len` bytes, `stride` bytes apart from `pos` on, lie in a buffer of `size`
      bytes and do not overlap. */
  predicate RowsInside(size: int, pos: int, stride: int, n: int, len: int)
  {
    0 <= len <= stride && 0 <= pos && (n > 0 ==> RowStart(pos, stride, n - 1) + len <= size)
  }

  /** Row `i` ends before row `m` starts. */
  lemma {:induction false} RowOrder(pos: int, stride: int, i: int, m: int)
    requires 0 <= i < m && 0 <= stride
    ensures RowStart(pos, stride, i) + stride <= RowStart(pos, stride, m)
    decreases m
  {
    if i < m - 1 {
      RowOrder(pos, stride, i, m - 1);
    }
  }

  /** Rows lie at or after the first one. */
  lemma RowAfterStart(pos: int, stride: int, i: int)
    requires 0 <= i && 0 <= stride
    ensures pos <= RowStart(pos, stride, i)
  {
    if 0 < i {
      RowOrder(pos, stride, 0, i);
    }
  }

  lemma RowInRows(size: int, pos: int, stride: int, n: int, len: int, i: int)
    requires RowsInside(size, pos, stride, n, len) && 0 <= i < n
    ensures 0 <= RowStart(pos, stride, i) && RowStart(pos, stride, i) + len <= size
    ensures RowsInside(size, pos, stride, i, len)
  {
    RowAfterStart(pos, stride, i);
    if i < n - 1 {
      RowOrder(pos, stride, i, n - 1);
    }
    if 0 < i {
      RowOrder(pos, stride, i - 1, i);
    }
  }

  /** The first `m` of `n` rows that lie in a buffer lie in it too. */
  lemma RowsPrefix(size: int, pos: int, stride: int, n: int, len: int, m: int)
    requires RowsInside(size, pos, stride, n, len) && 0 <= m <= n
    ensures RowsInside(size, pos, stride, m, len)
  {
    if 0 < m {
      RowInRows(size, pos, stride, n, len, m - 1);
    }
  }

  /** A row-by-row copy: `d` after the first `n` rows of `len` bytes are copied from `src`. */
  function CopyRows(d: seq<byte>, dpos: int, dstride: int, src: seq<byte>, spos: int, sstride: int,
                    n: int, len: int): (r: seq<byte>)
    requires 0 <= n
    requires RowsInside(|d|, dpos, dstride, n, len) && RowsInside(|src|, spos, sstride, n, len)
    ensures |r| == |d|
  {
    if n == 0 then d
    else
      RowInRows(|d|, dpos, dstride, n, len, n - 1);
      RowInRows(|src|, spos, sstride, n, len, n - 1);
      var s := RowStart(spos, sstride, n - 1);
      Splice(CopyRows(d, dpos, dstride, src, spos, sstride, n - 1, len),
             RowStart(dpos, dstride, n - 1), src[s..s + len])
  }

  /** Byte `k` after copying `n` rows: a byte of the last row comes from the source, any
      other one is as after `n - 1` rows. */
  lemma CopyRowsAt(d: seq<byte>, dpos: int, dstride: int, src: seq<byte>, spos: int, sstride: int,
                   n: int, len: int, k: int)
    requires 0 < n
    requires RowsInside(|d|, dpos, dstride, n, len) && RowsInside(|src|, spos, sstride, n, len)
    requires 0 <= k < |d|
    ensures RowsInside(|d|, dpos, dstride, n - 1, len) && RowsInside(|src|, spos, sstride, n - 1, len)
    ensures 0 <= RowStart(spos, sstride, n - 1) && RowStart(spos, sstride, n - 1) + len <= |src|
    ensures var row := RowStart(dpos, dstride, n - 1);
            CopyRows(d, dpos, dstride, src, spos, sstride, n, len)[k] ==
              if row <= k < row + len then src[RowStart(spos, sstride, n - 1) + (k - row)]
              else CopyRows(d, dpos, dstride, src, spos, sstride, n - 1, len)[k]
  {
    RowInRows(|d|, dpos, dstride, n, len, n - 1);
    RowInRows(|src|, spos, sstride, n, len, n - 1);
    var s := RowStart(spos, sstride, n - 1);
    SpliceAt(CopyRows(d, dpos, dstride, src, spos, sstride, n - 1, len),
             RowStart(dpos, dstride, n - 1), src[s..s + len], k);
  }

  /** Copying one more row is one more `memcpy`. */
  lemma CopyRowsNext(d: seq<byte>, dpos: int, dstride: int, src: seq<byte>, spos: int, sstride: int,
                     n: int, len: int)
    requires 0 <= n
    requires RowsInside(|d|, dpos, dstride, n + 1, len) && RowsInside(|src|, spos, sstride, n + 1, len)
    ensures RowsInside(|d|, dpos, dstride, n, len) && RowsInside(|src|, spos, sstride, n, len)
    ensures 0 <= RowStart(dpos, dstride, n) && RowStart(dpos, dstride, n) + len <= |d|
    ensures 0 <= RowStart(spos, sstride, n) && RowStart(spos, sstride, n) + len <= |src|
    ensures CopyRows(d, dpos, dstride, src, spos, sstride, n + 1, len) ==
              Splice(CopyRows(d, dpos, dstride, src, spos, sstride, n, len), RowStart(dpos, dstride, n),
                     src[RowStart(spos, sstride, n)..RowStart(spos, sstride, n) + len])
  {
    RowInRows(|d|, dpos, dstride, n + 1, len, n);
    RowInRows(|src|, spos, sstride, n + 1, len, n);
  }

  /** Each byte of each copied row holds the source byte it was copied from. */
  lemma {:induction false} CopyRowsInside(d: seq<byte>, dpos: int, dstride: int, src: seq<byte>, spos: int,
                                          sstride: int, n: int, len: int, i: int, j: int)
    requires 0 <= n
    requires RowsInside(|d|, dpos, dstride, n, len) && RowsInside(|src|, spos, sstride, n, len)
    requires 0 <= i < n && 0 <= j < len
    ensures 0 <= RowStart(dpos, dstride, i) + j < |d| && 0 <= RowStart(spos, sstride, i) + j < |src|
    ensures CopyRows(d, dpos, dstride, src, spos, sstride, n, len)[RowStart(dpos, dstride, i) + j] ==
              src[RowStart(spos, sstride, i) + j]
  {
    RowInRows(|d|, dpos, dstride, n, len, i);
    RowInRows(|src|, spos, sstride, n, len, i);
    CopyRowsAt(d, dpos, dstride, src, spos, sstride, n, len, RowStart(dpos, dstride, i) + j);
    if i < n - 1 {
      RowOrder(dpos, dstride, i, n - 1);
      CopyRowsInside(d, dpos, dstride, src, spos, sstride, n - 1, len, i, j);
    }
  }

  /** Byte `k` lies in one of the first `n` copied rows. */
  predicate InRows(k: int, pos: int, stride: int, n: int, len: int)
  {
    exists i | 0 <= i < n :: RowStart(pos, stride, i) <= k < RowStart(pos, stride, i) + len
  }

  /** Bytes outside the copied rows keep their value. */
  lemma {:induction false} CopyRowsOutside(d: seq<byte>, dpos: int, dstride: int, src: seq<byte>, spos: int,
                                           sstride: int, n: int, len: int, k: int)
    requires 0 <= n
    requires RowsInside(|d|, dpos, dstride, n, len) && RowsInside(|src|, spos, sstride, n, len)
    requires 0 <= k < |d| && !InRows(k, dpos, dstride, n, len)
    ensures CopyRows(d, dpos, dstride, src, spos, sstride, n, len)[k] == d[k]
  {
    if n > 0 {
      CopyRowsAt(d, dpos, dstride, src, spos, sstride, n, len, k);
      assert !InRows(k, dpos, dstride, n - 1, len);
      CopyRowsOutside(d, dpos, dstride, src, spos, sstride, n - 1, len, k);
    }
  }

  /** The copy `canvas_blit` does for a clip. */
  function Blitted(d: seq<byte>, dst: Canvas, src: seq<byte>, sc: Canvas, c: Clip): seq<byte>
    requires CanvasFits(dst, |d|) && CanvasFits(sc, |src|)
    requires 0 <= c.x && c.x + c.w <= dst.width && 0 <= c.y && c.y + c.h <= dst.height
    requires 0 <= c.sx && c.sx + c.w <= sc.width && 0 <= c.sy && c.sy + c.h <= sc.height
    requires 0 < c.w && 0 < c.h
  {
    BlitRowsInside(dst, |d|, c.x, c.y, c.w, c.h);
    BlitRowsInside(sc, |src|, c.sx, c.sy, c.w, c.h);
    CopyRows(d, DstStart(dst, c), dst.stride, src, SrcStart(sc, c), sc.stride, c.h, 4 * c.w)
  }

  /** `dst_ptr` and `src_ptr` before the first row. */
  function DstStart(dst: Canvas, c: Clip): int { PixelByte(dst, c.y, c.x) }
  function SrcStart(src: Canvas, c: Clip): int { PixelByte(src, c.sy, c.sx) }

  /** The `h` rows of `4 * w` bytes from pixel (x, y) of a fitting canvas lie in its buffer. */
  lemma BlitRowsInside(cv: Canvas, size: int, x: int, y: int, w: int, h: int)
    requires CanvasFits(cv, size)
    requires 0 <= x && x + w <= cv.width && 0 <= y && y + h <= cv.height && 0 < w && 0 < h
    ensures RowsInside(size, PixelByte(cv, y, x), cv.stride, h, 4 * w)
  {
    RowInside(cv, size, y, x, w);
    RowInside(cv, size, y + h - 1, x, w);
    RowShift(cv, y, h - 1, x);
  }

  /** `canvas_blit(dst, src [, x, y])`: the new destination buffer. */
  function Blit(d: seq<byte>, dst: Canvas, src: seq<byte>, sc: Canvas, x: Option<int>, y: Option<int>): (r: Result<seq<byte>>)
    requires CanvasFits(dst, |d|) && CanvasFits(sc, |src|)
    ensures r.Err? <==> dst.kind == StringBuffer
    ensures r.Ok? ==> |r.value| == |d|
  {
    if dst.kind == StringBuffer then Err("dst canvas is readonly")
    else
      var x0 := if x.Some? then x.value else 0;
      var y0 := if y.Some? then y.value else 0;
      var c := BlitClip(dst, sc, x0, y0);
      if c.None? then Ok(d)
      else
        BlitClipInside(dst, sc, x0, y0);
        Ok(Blitted(d, dst, src, sc, c.value))
  }

  /** Row `i` of a copy starting at row `y` is row `y + i` of the canvas. */
  lemma RowShift(cv: Canvas, y: int, i: int, x: int)
    requires 0 <= i
    ensures RowStart(PixelByte(cv, y, x), cv.stride, i) == PixelByte(cv, y + i, x)
  {
    RowStartIsProduct(PixelByte(cv, y, x), cv.stride, i);
    assert (y + i) * cv.stride == y * cv.stride + i * cv.stride;
  }

  /** Inside the clipped rectangle the destination holds the source pixels placed there. */
  lemma BlitCopies(d: seq<byte>, dst: Canvas, src: seq<byte>, sc: Canvas, c: Clip, i: int, j: int)
    requires CanvasFits(dst, |d|) && CanvasFits(sc, |src|)
    requires 0 <= c.x && c.x + c.w <= dst.width && 0 <= c.y && c.y + c.h <= dst.height
    requires 0 <= c.sx && c.sx + c.w <= sc.width && 0 <= c.sy && c.sy + c.h <= sc.height
    requires 0 < c.w && 0 < c.h
    requires 0 <= i < c.h && 0 <= j < 4 * c.w
    ensures 0 <= PixelByte(dst, c.y + i, c.x) + j < |d| && 0 <= PixelByte(sc, c.sy + i, c.sx) + j < |src|
    ensures Blitted(d, dst, src, sc, c)[PixelByte(dst, c.y + i, c.x) + j] == src[PixelByte(sc, c.sy + i, c.sx) + j]
  {
    BlitRowsInside(dst, |d|, c.x, c.y, c.w, c.h);
    BlitRowsInside(sc, |src|, c.sx, c.sy, c.w, c.h);
    var dp, sp := DstStart(dst, c), SrcStart(sc, c);
    RowShift(dst, c.y, i, c.x);
    RowShift(sc, c.sy, i, c.sx);
    CopyRowsInside(d, dp, dst.stride, src, sp, sc.stride, c.h, 4 * c.w, i, j);
    assert Blitted(d, dst, src, sc, c) == CopyRows(d, dp, dst.stride, src, sp, sc.stride, c.h, 4 * c.w);
  }

  /** Outside the clipped rectangle's rows the destination is unchanged. */
  lemma BlitKeepsOutside(d: seq<byte>, dst: Canvas, src: seq<byte>, sc: Canvas, c: Clip, k: int)
    requires CanvasFits(dst, |d|) && CanvasFits(sc, |src|)
    requires 0 <= c.x && c.x + c.w <= dst.width && 0 <= c.y && c.y + c.h <= dst.height
    requires 0 <= c.sx && c.sx + c.w <= sc.width && 0 <= c.sy && c.sy + c.h <= sc.height
    requires 0 < c.w && 0 < c.h
    requires 0 <= k < |d| && !InRows(k, DstStart(dst, c), dst.stride, c.h, 4 * c.w)
    ensures Blitted(d, dst, src, sc, c)[k] == d[k]
  {
    BlitRowsInside(dst, |d|, c.x, c.y, c.w, c.h);
    BlitRowsInside(sc, |src|, c.sx, c.sy, c.w, c.h);
    CopyRowsOutside(d, DstStart(dst, c), dst.stride, src, SrcStart(sc, c), sc.stride, c.h, 4 * c.w, k);
  }

  /** A read-only destination is refused, and a placement that misses the destination
      leaves it as it was. */
  lemma BlitNoCopy(d: seq<byte>, dst: Canvas, src: seq<byte>, sc: Canvas, x: Option<int>, y: Option<int>)
    requires CanvasFits(dst, |d|) && CanvasFits(sc, |src|)
    ensures Blit(d, dst, src, sc, x, y).Err? <==> dst.kind == StringBuffer
    ensures dst.kind != StringBuffer &&
            BlitClip(dst, sc, if x.Some? then x.value else 0, if y.Some? then y.value else 0).None? ==>
              Blit(d, dst, src, sc, x, y) == Ok(d)
  {
  }

  /** `memcpy(buf + pos, src + spos, n)` */
  method MemCopy(buf: array<byte>, pos: int, src: seq<byte>, spos: int, n: int)
    requires 0 <= pos && 0 <= n && pos + n <= buf.Length && 0 <= spos && spos + n <= |src|
    modifies buf
    ensures buf[..] == Splice(old(buf[..]), pos, src[spos..spos + n])
  {
    ghost var before := buf[..];
    forall k | 0 <= k < n {
      buf[pos + k] := src[spos + k];
    }
    forall k | 0 <= k < buf.Length
      ensures buf[k] == Splice(before, pos, src[spos..spos + n])[k]
    {
      SpliceAt(before, pos, src[spos..spos + n], k);
    }
  }

  /** `canvas_blit` on the destination buffer `buf`. */
  method CanvasBlit(buf: array<byte>, dst: Canvas, src: seq<byte>, sc: Canvas, xArg: Option<int>, yArg: Option<int>)
    returns (r: Result<()>)
    requires CanvasFits(dst, buf.Length) && CanvasFits(sc, |src|)
    modifies buf
    ensures var b := Blit(old(buf[..]), dst, src, sc, xArg, yArg);
            (b.Ok? ==> r == Ok(()) && buf[..] == b.value) && (b.Err? ==> r == Err(b.error) && buf[..] == old(buf[..]))
  {
    if dst.kind == StringBuffer {
      return Err("dst canvas is readonly");
    }
    var x := if xArg.Some? then xArg.value else 0;
    var y := if yArg.Some? then yArg.value else 0;
    var clip := ClipFor(dst, sc, x, y);
    if clip.None? {
      return Ok(());
    }
    BlitClipInside(dst, sc, x, y);
    var c := clip.value;
    BlitRowsInside(dst, buf.Length, c.x, c.y, c.w, c.h);
    BlitRowsInside(sc, |src|, c.sx, c.sy, c.w, c.h);
    CopyLoop(buf, DstStart(dst, c), dst.stride, src, SrcStart(sc, c), sc.stride, c.h, 4 * c.w);
    return Ok(());
  }

  /** The clipping statements of `canvas_blit`. */
  method ClipFor(dst: Canvas, sc: Canvas, x0: int, y0: int) returns (clip: Option<Clip>)
    ensures clip == BlitClip(dst, sc, x0, y0)
  {
    var x, y := x0, y0;
    var w := sc.width;
    var h := sc.height;
    var sx := 0;
    var sy := 0;
    if x < 0 {
      w := w + x;
      sx := -x;
      x := 0;
    }
    if y < 0 {
      h := h + y;
      sy := -y;
      y := 0;
    }
    if x + w > dst.width {
      w := dst.width - x;
    }
    if y + h > dst.height {
      h := dst.height - y;
    }
    if w <= 0 || h <= 0 {
      return None;
    }
    return Some(Clip(x, y, sx, sy, w, h));
  }

  /** The row loop of `canvas_blit`. */
  method CopyLoop(buf: array<byte>, dpos: int, dstride: int, src: seq<byte>, spos: int, sstride: int,
                  n: int, len: int)
    requires 0 <= n
    requires RowsInside(buf.Length, dpos, dstride, n, len) && RowsInside(|src|, spos, sstride, n, len)
    modifies buf
    ensures buf[..] == CopyRows(old(buf[..]), dpos, dstride, src, spos, sstride, n, len)
  {
    ghost var d := buf[..];
    var dptr := dpos;
    var sptr := spos;
    var i := 0;
    while i < n
      invariant 0 <= i <= n
      invariant RowsInside(buf.Length, dpos, dstride, i, len) && RowsInside(|src|, spos, sstride, i, len)
      invariant dptr == RowStart(dpos, dstride, i) && sptr == RowStart(spos, sstride, i)
      invariant buf[..] == CopyRows(d, dpos, dstride, src, spos, sstride, i, len)
    {
      RowInRows(buf.Length, dpos, dstride, n, len, i);
      RowInRows(|src|, spos, sstride, n, len, i);
      RowsPrefix(buf.Length, dpos, dstride, n, len, i + 1);
      RowsPrefix(|src|, spos, sstride, n, len, i + 1);
      CopyRowsNext(d, dpos, dstride, src, spos, sstride, i, len);
      MemCopy(buf, dptr, src, sptr, len);
      sptr := sptr + sstride;
      dptr := dptr + dstride;
      i := i + 1;
    }
    assert i == n;
    assert d == old(buf[..]);
  }
}
