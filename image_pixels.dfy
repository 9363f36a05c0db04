/** Pixel conversions of src/image.c: the buffer `image_new` fills, the alpha mask
    `image_load_alpha` makes of a decoded picture, and the 64-bit index `image_makeindex`
    packs a rectangle into. Pixels are RGBA8, four bytes each, row after row. */
module ImagePixels {
  import opened Wrappers
  import opened ImageBytes
  import ImageCanvas

  // ---------------------------------------------------------------------------------
  // image_new

  /** Every pixel grey level `data[p]` spread to all four channels. */
  function Spread(data: seq<byte>): (r: seq<byte>)
    ensures |r| == 4 * |data|
  {
    seq(4 * |data|, k requires 0 <= k < 4 * |data| => data[k / 4])
  }

  /** Channel `c` of every pixel of an RGBA8 buffer. */
  function Plane(p: seq<byte>, c: int): (r: seq<byte>)
    requires 0 <= c < 4
    ensures |r| == |p| / 4
  {
    seq(|p| / 4, i requires 0 <= i < |p| / 4 => p[4 * i + c])
  }

  /** The bytes `image_new(w, h, data)` leaves in the new image, given the bytes of its
      third argument (empty when there is none, or it is not a buffer). */
  function NewPixels(w: nat, h: nat, data: seq<byte>): (r: Result<seq<byte>>)
    ensures r.Ok? ==> |r.value| == w * h * 4
  {
    if |data| == 0 then Ok(seq(w * h * 4, _ => 0))
    else if |data| == w * h * 4 then Ok(data)
    else if |data| == w * h then Ok(Spread(data))
    else Err("Invalid image data size")
  }

  /** No data gives a transparent black image, full RGBA8 data is taken as it is, and one
      byte per pixel gives a grey image whose every channel holds that byte; any other
      length is refused. The result always has `w * h * 4` bytes. */
  lemma NewPixelsSpec(w: nat, h: nat, data: seq<byte>)
    ensures NewPixels(w, h, data).Err? <==> |data| != 0 && |data| != w * h * 4 && |data| != w * h
    ensures NewPixels(w, h, data).Ok? ==> |NewPixels(w, h, data).value| == w * h * 4
    ensures |data| == 0 ==> forall k | 0 <= k < w * h * 4 :: NewPixels(w, h, data).value[k] == 0
    ensures |data| == w * h * 4 ==> NewPixels(w, h, data) == Ok(data)
    ensures 0 < |data| == w * h ==>
              forall k | 0 <= k < w * h * 4 :: NewPixels(w, h, data).value[k] == data[k / 4]
  {
  }

  /** A grey image made from one byte per pixel gives those bytes back as any of its
      channels, the alpha channel among them. */
  lemma {:induction false} SpreadPlane(data: seq<byte>, c: int)
    requires 0 <= c < 4
    ensures Plane(Spread(data), c) == data
  {
    var r := Plane(Spread(data), c);
    assert |r| == |data|;
    forall i | 0 <= i < |data|
      ensures r[i] == data[i]
    {
      assert (4 * i + c) / 4 == i;
    }
  }

  /** `image_new(w, h, data)`: the pixel buffer of the new image. As in the source, the
      buffer is allocated before the data length is looked at. */
  method NewImage(w: nat, h: nat, data: seq<byte>) returns (r: Result<array<byte>>)
    ensures NewPixels(w, h, data).Err? ==> r == Err(NewPixels(w, h, data).error)
    ensures NewPixels(w, h, data).Ok? ==> r.Ok? && fresh(r.value) && r.value[..] == NewPixels(w, h, data).value
  {
    var buffer := new byte[w * h * 4];
    if |data| == 0 {
      forall k | 0 <= k < buffer.Length {
        buffer[k] := 0;
      }
    } else if |data| == w * h * 4 {
      forall k | 0 <= k < buffer.Length {
        buffer[k] := data[k];
      }
    } else if |data| == w * h {
      SpreadInto(buffer, data, w, h);
    } else {
      return Err("Invalid image data size");
    }
    assert buffer[..] == NewPixels(w, h, data).value;
    return Ok(buffer);
  }

  /** The one-byte-per-pixel loops of `image_new`. */
  method SpreadInto(buffer: array<byte>, data: seq<byte>, w: nat, h: nat)
    requires |data| == w * h && buffer.Length == 4 * |data|
    modifies buffer
    ensures buffer[..] == Spread(data)
  {
    var src := 0;
    var dst := 0;
    var i := 0;
    while i < h
      invariant 0 <= i <= h && src == i * w && dst == 4 * src
      invariant forall k | 0 <= k < dst :: buffer[k] == data[k / 4]
    {
      RowBefore(i + 1, h, w);
      RowStep(i, w);
      var j := 0;
      while j < w
        invariant 0 <= j <= w && src == i * w + j && dst == 4 * src
        invariant forall k | 0 <= k < dst :: buffer[k] == data[k / 4]
      {
        var alpha := data[src];
        buffer[dst], buffer[dst + 1], buffer[dst + 2], buffer[dst + 3] := alpha, alpha, alpha, alpha;
        src := src + 1;
        dst := dst + 4;
        j := j + 1;
      }
      i := i + 1;
    }
  }

  /** The buffer `image_new` makes is one that `get_image_buffer` accepts under the width
      and height it records, so it can be viewed as a canvas of stride `4 * w`. */
  lemma NewImageIsImage(w: nat, h: nat, data: seq<byte>)
    requires NewPixels(w, h, data).Ok?
    ensures ImageCanvas.GetImageBuffer(ImageCanvas.ImageValue(true, Some(w), Some(h), |NewPixels(w, h, data).value|))
              == Ok((w, h))
  {
    NewPixelsSpec(w, h, data);
  }

  // ---------------------------------------------------------------------------------
  // image_load_alpha

  /** A decoded picture as `image_load_alpha` leaves it: black, with the alpha of each pixel
      the inverse of its former red channel. */
  function AlphaMask(p: seq<byte>): (r: seq<byte>)
    ensures |r| == |p|
  {
    seq(|p|, k requires 0 <= k < |p| => if k % 4 == 3 then 255 - p[k - 3] else 0)
  }

  /** Every whole pixel of the mask is (0, 0, 0, 255 - red). */
  lemma AlphaMaskPixel(p: seq<byte>, i: int)
    requires 0 <= i && 4 * i + 4 <= |p|
    ensures AlphaMask(p)[4 * i..4 * i + 4] == [0, 0, 0, 255 - p[4 * i]]
  {
    assert (4 * i + 3) % 4 == 3 && (4 * i) % 4 == 0 && (4 * i + 1) % 4 == 1 && (4 * i + 2) % 4 == 2;
  }

  /** The alpha channel of the mask is the red channel inverted: a white picture gives a
      transparent mask, a black one an opaque mask. */
  lemma {:induction false} AlphaMaskPlane(p: seq<byte>)
    ensures |Plane(AlphaMask(p), 3)| == |Plane(p, 0)|
    ensures forall i | 0 <= i < |Plane(p, 0)| :: Plane(AlphaMask(p), 3)[i] == 255 - Plane(p, 0)[i]
  {
    forall i | 0 <= i < |p| / 4
      ensures AlphaMask(p)[4 * i + 3] == 255 - p[4 * i]
    {
      assert (4 * i + 3) % 4 == 3;
    }
  }

  /** A mask made of a grey image is the grey levels inverted into alpha. */
  lemma GreyMask(data: seq<byte>)
    ensures Plane(AlphaMask(Spread(data)), 3) == seq(|data|, i requires 0 <= i < |data| => 255 - data[i])
  {
    AlphaMaskPlane(Spread(data));
    SpreadPlane(data, 0);
  }

  /** The pixel loops of `image_load_alpha` on the `x` by `y` picture `img`. */
  method LoadAlpha(img: array<byte>, x: nat, y: nat)
    requires img.Length == x * y * 4
    modifies img
    ensures img[..] == AlphaMask(old(img[..]))
  {
    ghost var p := img[..];
    var ptr := 0;
    var i := 0;
    while i < y
      invariant 0 <= i <= y && ptr == 4 * (i * x)
      invariant forall k | 0 <= k < ptr :: img[k] == AlphaMask(p)[k]
      invariant forall k | ptr <= k < img.Length :: img[k] == p[k]
    {
      RowBefore(i + 1, y, x);
      RowStep(i, x);
      var j := 0;
      while j < x
        invariant 0 <= j <= x && ptr == 4 * (i * x + j)
        invariant forall k | 0 <= k < ptr :: img[k] == AlphaMask(p)[k]
        invariant forall k | ptr <= k < img.Length :: img[k] == p[k]
      {
        MaskPixel(img, p, ptr);
        ptr := ptr + 4;
        j := j + 1;
      }
      i := i + 1;
    }
    assert img[..] == AlphaMask(p);
  }

  /** One pixel of `image_load_alpha`: alpha from red first, then red, green and blue
      cleared. */
  method MaskPixel(img: array<byte>, ghost p: seq<byte>, ptr: int)
    requires |p| == img.Length && 0 <= ptr && ptr + 4 <= img.Length && ptr % 4 == 0
    requires forall k | ptr <= k < ptr + 4 :: img[k] == p[k]
    modifies img
    ensures forall k | ptr <= k < ptr + 4 :: img[k] == AlphaMask(p)[k]
    ensures forall k | 0 <= k < img.Length && !(ptr <= k < ptr + 4) :: img[k] == old(img[k])
  {
    img[ptr + 3] := 255 - img[ptr];
    img[ptr] := 0;
    img[ptr + 1] := 0;
    img[ptr + 2] := 0;
    assert (ptr + 1) % 4 == 1 && (ptr + 2) % 4 == 2 && (ptr + 3) % 4 == 3;
  }

  // ---------------------------------------------------------------------------------
  // image_makeindex

  const Lane: int := 0x1_0000
  const Word: int := 0x1_0000_0000_0000_0000

  /** `(uint16_t)v`: the low 16 bits. */
  function Low16(v: int): (r: int)
    ensures 0 <= r < Lane
  {
    v % Lane
  }

  /** The `uint64_t` of the union whose four `uint16_t` lanes are a, b, c, d, the first
      lane in the low bits (the little-endian layout the union has on the targets). */
  function Pack(a: int, b: int, c: int, d: int): (r: int)
    requires 0 <= a < Lane && 0 <= b < Lane && 0 <= c < Lane && 0 <= d < Lane
    ensures 0 <= r < Word
  {
    a + Lane * (b + Lane * (c + Lane * d))
  }

  /** `lua_pushinteger` of a `uint64_t`: the same bits as a signed 64-bit integer. */
  function ToInt64(u: int): (r: int)
    requires 0 <= u < Word
    ensures -Word / 2 <= r < Word / 2 && r % Word == u
  {
    if u < Word / 2 then u else u - Word
  }

  /** `image_makeindex([x, y, w, h])`: -1 without arguments, otherwise the rectangle's four
      values cut to 16 bits and packed into one integer. */
  function MakeIndex(rect: Option<(int, int, int, int)>): (r: int)
    ensures -Word / 2 <= r < Word / 2
  {
    if rect.None? then -1
    else
      var (x, y, w, h) := rect.value;
      ToInt64(Pack(Low16(x), Low16(y), Low16(w), Low16(h)))
  }

  /** The lanes of a packed index, read back from its 64 bits. */
  function Unpack(index: int, lane: int): (r: int)
    requires 0 <= lane < 4
    ensures 0 <= r < Lane
  {
    var u := index % Word;
    if lane == 0 then u % Lane
    else if lane == 1 then u / Lane % Lane
    else if lane == 2 then u / 0x1_0000_0000 % Lane
    else u / 0x1_0000_0000_0000 % Lane
  }

  /** Reading a packed word back gives each lane. */
  lemma UnpackPack(a: int, b: int, c: int, d: int)
    requires 0 <= a < Lane && 0 <= b < Lane && 0 <= c < Lane && 0 <= d < Lane
    ensures Unpack(Pack(a, b, c, d), 0) == a && Unpack(Pack(a, b, c, d), 1) == b
    ensures Unpack(Pack(a, b, c, d), 2) == c && Unpack(Pack(a, b, c, d), 3) == d
  {
    var u := Pack(a, b, c, d);
    assert u % Word == u;
    assert u == a + 0x1_0000 * (b + 0x1_0000 * (c + 0x1_0000 * d));
    assert u == (a + 0x1_0000 * b) + 0x1_0000_0000 * (c + 0x1_0000 * d);
    assert u == (a + 0x1_0000 * b + 0x1_0000_0000 * c) + 0x1_0000_0000_0000 * d;
  }

  /** The index keeps each value of the rectangle modulo 2^16, lane by lane from x up. */
  lemma MakeIndexLanes(x: int, y: int, w: int, h: int)
    ensures Unpack(MakeIndex(Some((x, y, w, h))), 0) == x % Lane
    ensures Unpack(MakeIndex(Some((x, y, w, h))), 1) == y % Lane
    ensures Unpack(MakeIndex(Some((x, y, w, h))), 2) == w % Lane
    ensures Unpack(MakeIndex(Some((x, y, w, h))), 3) == h % Lane
  {
    var u := Pack(Low16(x), Low16(y), Low16(w), Low16(h));
    assert MakeIndex(Some((x, y, w, h))) % Word == u;
    UnpackPack(Low16(x), Low16(y), Low16(w), Low16(h));
  }

  /** Two rectangles get the same index exactly when their values agree modulo 2^16. */
  lemma MakeIndexInjective(r1: (int, int, int, int), r2: (int, int, int, int))
    ensures MakeIndex(Some(r1)) == MakeIndex(Some(r2)) <==>
              && r1.0 % Lane == r2.0 % Lane && r1.1 % Lane == r2.1 % Lane
              && r1.2 % Lane == r2.2 % Lane && r1.3 % Lane == r2.3 % Lane
  {
    MakeIndexLanes(r1.0, r1.1, r1.2, r1.3);
    MakeIndexLanes(r2.0, r2.1, r2.2, r2.3);
  }

  /** The rectangle (-1, -1, -1, -1), all lanes 0xFFFF, gets the index -1 that stands for
      no rectangle. */
  lemma MakeIndexAllOnes()
    ensures MakeIndex(Some((-1, -1, -1, -1))) == MakeIndex(None) == -1
  {
  }
}
