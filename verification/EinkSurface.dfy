/** From the 1-bit drawing surface to the e-ink controller's memory: eink_render_impl and dev_render
  * of lib/eink/eink.c, and the font-size search of eink_quick_announce.
  */
module EinkSurface {
  import opened Basics

  // ---------------------------------------------------------------------------------------
  // Bits
  // ---------------------------------------------------------------------------------------

  /** Mask with only bit n set, n counted from the least significant. */
  function Mask(n: nat): bv8
    requires n < 8
  {
    match n
    case 0 => 0x01
    case 1 => 0x02
    case 2 => 0x04
    case 3 => 0x08
    case 4 => 0x10
    case 5 => 0x20
    case 6 => 0x40
    case 7 => 0x80
  }

  /** The surface packs pixels least significant bit first ... */
  predicate LsbBit(b: bv8, n: nat)
    requires n < 8
  {
    b & Mask(n) != 0
  }

  /** ... and the device most significant bit first. */
  predicate MsbBit(b: bv8, n: nat)
    requires n < 8
  {
    b & Mask(7 - n) != 0
  }

  lemma MaskSelects(b: bv8, n: nat)
    requires n < 8
    ensures (b & Mask(n) != 0) <==> (b >> n) & 1 == 1
  {
  }

  /** Pixel n of a surface byte is binary digit n, counted from the units ... */
  lemma LsbIsShift(b: bv8, n: nat)
    requires n < 8
    ensures LsbBit(b, n) <==> (b >> n) & 1 == 1
  {
    MaskSelects(b, n);
  }

  /** ... and device bit n is binary digit 7 - n. */
  lemma MsbIsShift(b: bv8, n: nat, digit: nat)
    requires n < 8 && digit == 7 - n
    ensures MsbBit(b, n) <==> (b >> digit) & 1 == 1
  {
    MaskSelects(b, digit);
  }

  lemma SetMsb(b: bv8, n: nat, k: nat)
    requires n < 8 && k < 8
    ensures MsbBit(b | Mask(7 - n), k) == (k == n || MsbBit(b, k))
  {
  }

  lemma ClearMsb(b: bv8, n: nat, k: nat)
    requires n < 8 && k < 8
    ensures MsbBit(b & !Mask(7 - n), k) == (k != n && MsbBit(b, k))
  {
  }

  // ---------------------------------------------------------------------------------------
  // The two memories
  // ---------------------------------------------------------------------------------------

  /** The drawing surface: `stride` bytes a row. */
  datatype Surface = Surface(width: nat, height: nat, stride: nat, data: seq<bv8>) {
    ghost predicate Valid() {
      width <= 8 * stride && |data| == height * stride
    }
  }

  lemma RowInBounds(i: nat, rowLen: nat, row: nat, rows: nat)
    requires i < rowLen && row < rows
    ensures 0 <= i + row * rowLen < rows * rowLen
  {
    assert rows * rowLen == rowLen * row + rowLen * (rows - row);
    MulBound(rowLen, rows - row);
  }

  predicate PixelSet(s: Surface, x: nat, y: nat)
    requires s.Valid() && x < s.width && y < s.height
  {
    RowInBounds(x / 8, s.stride, y, s.height);
    LsbBit(s.data[x / 8 + y * s.stride], x % 8)
  }

  /** Bytes per device column. */
  function ByteHeight(height: nat): (bh: nat)
    ensures height <= 8 * bh < height + 8
  {
    (height + 7) / 8
  }

  /** Bit d of column x in a device buffer of `bh` bytes a column. */
  predicate DeviceBit(buff: seq<bv8>, width: nat, bh: nat, x: nat, d: nat)
    requires x < width && d < 8 * bh && |buff| == width * bh
  {
    RowInBounds(d / 8, bh, x, width);
    MsbBit(buff[d / 8 + x * bh], d % 8)
  }

  /** The two layouts in plain digits: a surface row starts at a multiple of the stride and fills each byte
    * from the units up, a device column at a multiple of its bytes and from the top digit down. */
  lemma LayoutsAre(s: Surface, x: nat, y: nat, buff: seq<bv8>, bh: nat, d: nat, fromUnits: nat, fromTop: nat)
    requires s.Valid() && x < s.width && y < s.height && d < 8 * bh && |buff| == s.width * bh
    requires fromUnits == x % 8 && fromTop == 7 - d % 8
    ensures 0 <= y * s.stride + x / 8 < |s.data| && 0 <= x * bh + d / 8 < |buff|
    ensures PixelSet(s, x, y) <==> (s.data[y * s.stride + x / 8] >> fromUnits) & 1 == 1
    ensures DeviceBit(buff, s.width, bh, x, d) <==> (buff[x * bh + d / 8] >> fromTop) & 1 == 1
  {
    RowInBounds(x / 8, s.stride, y, s.height);
    RowInBounds(d / 8, bh, x, s.width);
    LsbIsShift(s.data[y * s.stride + x / 8], fromUnits);
    MsbIsShift(buff[x * bh + d / 8], d % 8, fromTop);
  }

  /** Different (column, bit) pairs are different bits of the buffer. */
  lemma DeviceBitsDistinct(bh: nat, x: nat, d: nat, x': nat, d': nat)
    requires d < 8 * bh && d' < 8 * bh
    requires d / 8 + x * bh == d' / 8 + x' * bh && d % 8 == d' % 8
    ensures x == x' && d == d'
  {
    DivModUnique(bh, x, d / 8, x', d' / 8);
  }

  // ---------------------------------------------------------------------------------------
  // Rendering
  // ---------------------------------------------------------------------------------------

  /** Row y and column x come before position (cx, cy) in the scan. */
  predicate Scanned(x: nat, y: nat, cx: nat, cy: nat) { y < cy || (y == cy && x < cx) }

  /** What bit d of column x must be once the pixels before (cx, cy) have been copied. */
  predicate Wanted(s: Surface, invert: bool, cx: nat, cy: nat, x: nat, d: nat)
    requires s.Valid() && x < s.width
  {
    d < s.height
    && Scanned(x, s.height - 1 - d, cx, cy)
    && PixelSet(s, x, s.height - 1 - d) == invert
  }

  ghost predicate Copied(s: Surface, invert: bool, cx: nat, cy: nat, bh: nat, buff: seq<bv8>)
    requires s.Valid() && |buff| == s.width * bh
  {
    forall x: nat, d: nat {:trigger DeviceBit(buff, s.width, bh, x, d)} :: x < s.width && d < 8 * bh ==>
      DeviceBit(buff, s.width, bh, x, d) == Wanted(s, invert, cx, cy, x, d)
  }

  function Written(b: bv8, n: nat, v: bool): bv8
    requires n < 8
  {
    if v then b | Mask(7 - n) else b & !Mask(7 - n)
  }

  lemma WrittenBit(b: bv8, n: nat, v: bool, k: nat)
    requires n < 8 && k < 8
    ensures MsbBit(Written(b, n, v), k) == if k == n then v else MsbBit(b, k)
  {
    SetMsb(b, n, k);
    ClearMsb(b, n, k);
  }

  /** after is before with bit d of column x written. */
  ghost predicate BitWritten(before: seq<bv8>, after: seq<bv8>, width: nat, bh: nat, x: nat, d: nat, v: bool)
    requires x < width && d < 8 * bh && |before| == width * bh
  {
    RowInBounds(d / 8, bh, x, width);
    var i := d / 8 + x * bh;
    after == before[i := Written(before[i], d % 8, v)]
  }

  lemma WriteOneBit(before: seq<bv8>, after: seq<bv8>, width: nat, bh: nat, x: nat, d: nat, v: bool, x': nat, d': nat)
    requires x < width && d < 8 * bh && |before| == width * bh
    requires BitWritten(before, after, width, bh, x, d, v)
    requires x' < width && d' < 8 * bh
    ensures |after| == |before|
    ensures DeviceBit(after, width, bh, x', d') ==
      if x' == x && d' == d then v else DeviceBit(before, width, bh, x', d')
  {
    RowInBounds(d / 8, bh, x, width);
    RowInBounds(d' / 8, bh, x', width);
    var i, i' := d / 8 + x * bh, d' / 8 + x' * bh;
    if i == i' {
      WrittenBit(before[i], d % 8, v, d' % 8);
      if d % 8 == d' % 8 {
        DeviceBitsDistinct(bh, x, d, x', d');
      }
    }
  }

  lemma WantedNext(s: Surface, invert: bool, x: nat, y: nat, x': nat, d': nat)
    requires s.Valid() && x < s.width && y < s.height && x' < s.width
    ensures Wanted(s, invert, x + 1, y, x', d') ==
      if x' == x && d' == s.height - 1 - y then PixelSet(s, x, y) == invert else Wanted(s, invert, x, y, x', d')
  {
  }

  lemma CopyPixelAt(s: Surface, invert: bool, x: nat, y: nat, bh: nat, before: seq<bv8>, after: seq<bv8>,
                    x': nat, d': nat)
    requires s.Valid() && x < s.width && y < s.height <= 8 * bh && |before| == s.width * bh
    requires Copied(s, invert, x, y, bh, before)
    requires BitWritten(before, after, s.width, bh, x, s.height - 1 - y, PixelSet(s, x, y) == invert)
    requires x' < s.width && d' < 8 * bh
    ensures |after| == |before|
    ensures DeviceBit(after, s.width, bh, x', d') == Wanted(s, invert, x + 1, y, x', d')
  {
    var v := PixelSet(s, x, y) == invert;
    WriteOneBit(before, after, s.width, bh, x, s.height - 1 - y, v, x', d');
    WantedNext(s, invert, x, y, x', d');
    assert DeviceBit(before, s.width, bh, x', d') == Wanted(s, invert, x, y, x', d');
  }

  lemma CopyPixel(s: Surface, invert: bool, x: nat, y: nat, bh: nat, before: seq<bv8>, after: seq<bv8>)
    requires s.Valid() && x < s.width && y < s.height <= 8 * bh && |before| == s.width * bh
    requires Copied(s, invert, x, y, bh, before)
    requires BitWritten(before, after, s.width, bh, x, s.height - 1 - y, PixelSet(s, x, y) == invert)
    ensures |after| == |before| && Copied(s, invert, x + 1, y, bh, after)
  {
    CopyPixelAt(s, invert, x, y, bh, before, after, x, s.height - 1 - y);
    forall x': nat, d': nat {:trigger DeviceBit(after, s.width, bh, x', d')} | x' < s.width && d' < 8 * bh
      ensures DeviceBit(after, s.width, bh, x', d') == Wanted(s, invert, x + 1, y, x', d')
    {
      CopyPixelAt(s, invert, x, y, bh, before, after, x', d');
    }
  }

  lemma NextRow(s: Surface, invert: bool, y: nat, bh: nat, buff: seq<bv8>)
    requires s.Valid() && |buff| == s.width * bh
    requires Copied(s, invert, s.width, y, bh, buff)
    ensures Copied(s, invert, 0, y + 1, bh, buff)
  {
    forall x: nat, d: nat {:trigger DeviceBit(buff, s.width, bh, x, d)} | x < s.width && d < 8 * bh
      ensures DeviceBit(buff, s.width, bh, x, d) == Wanted(s, invert, 0, y + 1, x, d)
    {
      assert DeviceBit(buff, s.width, bh, x, d) == Wanted(s, invert, s.width, y, x, d);
    }
  }

  lemma BlankIsCopied(s: Surface, invert: bool, bh: nat, buff: seq<bv8>)
    requires s.Valid() && |buff| == s.width * bh
    requires forall i :: 0 <= i < |buff| ==> buff[i] == 0
    ensures Copied(s, invert, 0, 0, bh, buff)
  {
    forall x: nat, d: nat {:trigger DeviceBit(buff, s.width, bh, x, d)} | x < s.width && d < 8 * bh
      ensures !DeviceBit(buff, s.width, bh, x, d)
    {
      RowInBounds(d / 8, bh, x, s.width);
    }
  }

  /** The buffer shows the surface: device bit d of column x is set exactly when pixel
    * (x, height - 1 - d) equals invert_color, and the padding bits of each column are clear. */
  ghost predicate Shows(s: Surface, invert: bool, bh: nat, buff: seq<bv8>)
    requires s.Valid() && |buff| == s.width * bh
  {
    forall x: nat, d: nat {:trigger DeviceBit(buff, s.width, bh, x, d)} :: x < s.width && d < 8 * bh ==>
      DeviceBit(buff, s.width, bh, x, d) == (d < s.height && PixelSet(s, x, s.height - 1 - d) == invert)
  }

  /** The copying loops of eink_render_impl. */
  method RenderBuffer(s: Surface, invert: bool, buff: array<bv8>)
    requires s.Valid() && buff.Length == s.width * ByteHeight(s.height)
    modifies buff
    ensures Shows(s, invert, ByteHeight(s.height), buff[..])
  {
    var bh := ByteHeight(s.height);
    Clear(buff);
    BlankIsCopied(s, invert, bh, buff[..]);
    for y := 0 to s.height
      invariant Copied(s, invert, 0, y, bh, buff[..])
    {
      RenderRow(s, invert, y, bh, buff);
      NextRow(s, invert, y, bh, buff[..]);
    }
    CopiedShows(s, invert, bh, buff[..]);
  }

  /** The inner loop: pixel row y becomes device bit height - 1 - y of every column. */
  method RenderRow(s: Surface, invert: bool, y: nat, bh: nat, buff: array<bv8>)
    requires s.Valid() && y < s.height <= 8 * bh && buff.Length == s.width * bh
    requires Copied(s, invert, 0, y, bh, buff[..])
    modifies buff
    ensures Copied(s, invert, s.width, y, bh, buff[..])
  {
    for x := 0 to s.width
      invariant Copied(s, invert, x, y, bh, buff[..])
    {
      ghost var before := buff[..];
      WriteBit(buff, s.width, bh, x, s.height - 1 - y, PixelSet(s, x, y) == invert);
      CopyPixel(s, invert, x, y, bh, before, buff[..]);
    }
  }

  method WriteBit(buff: array<bv8>, width: nat, bh: nat, destY: nat, destX: nat, v: bool)
    requires destY < width && destX < 8 * bh && buff.Length == width * bh
    modifies buff
    ensures BitWritten(old(buff[..]), buff[..], width, bh, destY, destX, v)
  {
    RowInBounds(destX / 8, bh, destY, width);
    var i := destX / 8 + destY * bh;
    buff[i] := Written(buff[i], destX % 8, v);
  }

  lemma CopiedShows(s: Surface, invert: bool, bh: nat, buff: seq<bv8>)
    requires s.Valid() && |buff| == s.width * bh
    requires Copied(s, invert, 0, s.height, bh, buff)
    ensures Shows(s, invert, bh, buff)
  {
    forall x: nat, d: nat {:trigger DeviceBit(buff, s.width, bh, x, d)} | x < s.width && d < 8 * bh
      ensures DeviceBit(buff, s.width, bh, x, d) == (d < s.height && PixelSet(s, x, s.height - 1 - d) == invert)
    {
      assert DeviceBit(buff, s.width, bh, x, d) == Wanted(s, invert, 0, s.height, x, d);
    }
  }

  /** The memset. */
  method Clear(buff: array<bv8>)
    modifies buff
    ensures forall i :: 0 <= i < buff.Length ==> buff[i] == 0
  {
    for i := 0 to buff.Length
      invariant forall k :: 0 <= k < i ==> buff[k] == 0
    {
      buff[i] := 0;
    }
  }

  /** The buffer determines the picture: surfaces of one size shown by the same buffer have the same
    * pixels. */
  lemma NothingLost(s: Surface, t: Surface, invert: bool, bh: nat, buff: seq<bv8>, x: nat, y: nat)
    requires s.Valid() && t.Valid() && s.width == t.width && s.height == t.height
    requires s.height <= 8 * bh && |buff| == s.width * bh
    requires Shows(s, invert, bh, buff) && Shows(t, invert, bh, buff)
    requires x < s.width && y < s.height
    ensures PixelSet(s, x, y) == PixelSet(t, x, y)
  {
    var d := s.height - 1 - y;
    var bit := DeviceBit(buff, s.width, bh, x, d);
    assert bit == (PixelSet(s, x, s.height - 1 - d) == invert);
    assert bit == (PixelSet(t, x, t.height - 1 - d) == invert);
  }

  /** The data bytes dev_render sends for one RAM write: column after column, which is the buffer in
    * memory order. */
  method TransmitColumns(buff: array<bv8>, width: nat, byteHeight: nat) returns (sent: seq<bv8>)
    requires buff.Length == width * byteHeight
    ensures sent == buff[..]
  {
    sent := [];
    for j := 0 to width
      invariant 0 <= j * byteHeight <= buff.Length
      invariant sent == buff[..j * byteHeight]
    {
      assert (j + 1) * byteHeight == j * byteHeight + byteHeight;
      MulOrder(byteHeight + 1, j, width);
      for i := 0 to byteHeight
        invariant 0 <= i + j * byteHeight <= buff.Length
        invariant sent == buff[..i + j * byteHeight]
      {
        RowInBounds(i, byteHeight, j, width);
        sent := sent + [buff[i + j * byteHeight]];
      }
    }
  }

  // ---------------------------------------------------------------------------------------
  // The font-size search
  // ---------------------------------------------------------------------------------------

  /** eink_quick_announce's bisection; `fits` says whether the wrapped text fits at a font size. */
  method LargestFont(height: real, fits: real -> bool) returns (size: real, ghost tooBig: real)
    requires 1.0 <= height
    ensures 1.0 <= size <= tooBig <= height && tooBig - size <= 1.0
    ensures size == 1.0 || fits(size)
    ensures tooBig == height || !fits(tooBig)
  {
    var lo, hi := 1.0, height;
    while hi - lo > 1.0
      invariant 1.0 <= lo <= hi <= height
      invariant lo == 1.0 || fits(lo)
      invariant hi == height || !fits(hi)
      decreases (hi - lo).Floor
    {
      var mid := (lo + hi) / 2.0;
      if fits(mid) {
        lo := mid;
      } else {
        hi := mid;
      }
    }
    size, tooBig := lo, hi;
  }
}
