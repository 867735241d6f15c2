/**
 * The Direct3D 11 volume texture: validation and block alignment of region updates,
 * the row copies into mapped texture memory and out of a staging copy, the mip-skip
 * clamp for compressed images, and texture creation. Direct3D calls are uninterpreted: their
 * outcomes are parameters, and the calls that carry data are recorded in a trace.
 */
module Texture3DD3D11 {
  import opened Bytes
  import opened Str
  import Arith

  /** TEXTURE_STATIC, TEXTURE_DYNAMIC, TEXTURE_RENDERTARGET, TEXTURE_DEPTHSTENCIL. */
  datatype TextureUsage = Static | Dynamic | RenderTarget | DepthStencil

  /** A texel format: bytes per pixel, or bytes per 4x4 block of a compressed format. */
  datatype PixelFormat = Uncompressed(pixelBytes: nat) | Compressed(blockBytes: nat)

  /** A region update: position and extent in texels, as the int arguments of SetData. */
  datatype Box = Box(x: int, y: int, z: int, width: int, height: int, depth: int)

  /** The Direct3D calls the texture issues, as uninterpreted effects. */
  datatype GpuCall =
    | CreateTexture(width: nat, height: nat, depth: nat, mipLevels: nat, dynamicUsage: bool)
    | CreateView(viewLevels: nat)
    | UpdateSubresource(level: nat, left: nat, right: nat, top: nat, bottom: nat, front: nat, back: nat,
                        data: seq<byte>, rowPitch: nat, depthPitch: nat)

  function Pow2(n: nat): (r: nat)
    ensures r >= 1
  {
    if n == 0 then 1 else 2 * Pow2(n - 1)
  }

  /** GetLevelWidth/Height/Depth: the extent halved `level` times, and at least 1. */
  function LevelExtent(extent: nat, level: nat): nat
  {
    var e := extent / Pow2(level);
    if e < 1 then 1 else e
  }

  /** GetRowDataSize_D3D11: bytes of one row of `width` texels (one row of blocks when compressed). */
  function RowDataSize(f: PixelFormat, width: nat): nat
  {
    match f
    case Uncompressed(b) => width * b
    case Compressed(b) => (width + 3) / 4 * b
  }

  // ---------------------------------------------------------------------
  // Region checks and block alignment

  /** The region lies inside the level and has a positive extent on every axis. */
  predicate InLevel(b: Box, levelWidth: nat, levelHeight: nat, levelDepth: nat)
  {
    && 0 <= b.x && b.x + b.width <= levelWidth
    && 0 <= b.y && b.y + b.height <= levelHeight
    && 0 <= b.z && b.z + b.depth <= levelDepth
    && b.width > 0 && b.height > 0 && b.depth > 0
  }

  /** `v &= ~3` on a non-negative value. */
  function AlignDown4(v: nat): (r: nat)
    ensures r % 4 == 0 && r <= v < r + 4
  {
    v - v % 4
  }

  /** `v += 3; v &= 0xfffffffc` on a non-negative value. */
  function AlignUp4(v: nat): (r: nat)
    ensures r % 4 == 0 && v <= r < v + 4
  {
    (v + 3) - (v + 3) % 4
  }

  /** The update region after block alignment: compressed formats move x and y down and grow width and height to multiples of 4. */
  function AlignBox(compressed: bool, b: Box): (r: Box)
    requires b.x >= 0 && b.y >= 0 && b.width >= 0 && b.height >= 0
    ensures r.z == b.z && r.depth == b.depth
    ensures !compressed ==> r == b
    ensures compressed ==>
      && r.x % 4 == 0 && r.x <= b.x < r.x + 4 && r.y % 4 == 0 && r.y <= b.y < r.y + 4
      && r.width % 4 == 0 && b.width <= r.width < b.width + 4
      && r.height % 4 == 0 && b.height <= r.height < b.height + 4
  {
    if compressed then Box(AlignDown4(b.x), AlignDown4(b.y), b.z, AlignUp4(b.width), AlignUp4(b.height), b.depth)
    else b
  }

  /** Rows of data in `height` texels: `(height + 3) >> 2` rows of blocks when compressed. */
  function NumRows(compressed: bool, height: nat): (r: nat)
    ensures compressed ==> height <= 4 * r < height + 4
    ensures !compressed ==> r == height
  {
    if compressed then (height + 3) / 4 else height
  }

  // ---------------------------------------------------------------------
  // Row copies into mapped memory (SetData on a dynamic texture)

  /** The layout of a row copy: `pages` pages of `rows` rows of `rowSize` bytes, placed at page z and row y of mapped memory. */
  datatype RowCopy = RowCopy(pages: nat, rows: nat, z: nat, y: nat, rowStart: nat, rowSize: nat, rowPitch: nat, depthPitch: nat)

  /** Where row `row` of page `page` goes in the mapped memory. */
  function DestOffset(c: RowCopy, page: nat, row: nat): nat
  {
    (page + c.z) * c.depthPitch + (row + c.y) * c.rowPitch + c.rowStart
  }

  /** Where the source row is read as written: `src + row * rowSize`, the same for every page. */
  function SourceOffsetAsWritten(c: RowCopy, page: nat, row: nat): nat
  {
    row * c.rowSize
  }

  /** Where the source row is read when the pages follow each other in the data. */
  function SourceOffset(c: RowCopy, page: nat, row: nat): nat
  {
    (page * c.rows + row) * c.rowSize
  }

  /** As written, page 1 receives the bytes of page 0 whenever the source holds more than one page of data. */
  lemma SourceRepeatsPagesAsWritten(c: RowCopy, row: nat)
    requires row < c.rows && c.rowSize > 0
    ensures SourceOffsetAsWritten(c, 1, row) == SourceOffsetAsWritten(c, 0, row)
    ensures SourceOffset(c, 1, row) != SourceOffset(c, 0, row)
  {
    assert SourceOffset(c, 1, row) == SourceOffset(c, 0, row) + c.rows * c.rowSize;
  }

  /** a <= b implies a * k <= b * k. */
  lemma MulMono(a: nat, b: nat, k: nat)
    requires a <= b
    ensures a * k <= b * k
  {
    assert b * k == a * k + (b - a) * k;
  }

  /** With the intended offsets, every source row lies inside the data and distinct rows do not overlap. */
  lemma SourceRowsDisjoint(c: RowCopy, p1: nat, r1: nat, p2: nat, r2: nat)
    requires p1 < c.pages && p2 < c.pages && r1 < c.rows && r2 < c.rows
    requires (p1, r1) != (p2, r2)
    ensures SourceOffset(c, p1, r1) + c.rowSize <= SourceOffset(c, p2, r2)
         || SourceOffset(c, p2, r2) + c.rowSize <= SourceOffset(c, p1, r1)
  {
    var i1 := p1 * c.rows + r1;
    var i2 := p2 * c.rows + r2;
    if i1 == i2 {
      Arith.ModUnique(i1, c.rows, p1, r1);
      Arith.ModUnique(i1, c.rows, p2, r2);
    } else if i1 < i2 {
      MulMono(i1 + 1, i2, c.rowSize);
    } else {
      MulMono(i2 + 1, i1, c.rowSize);
    }
  }

  /** Row `row` of page `page` ends within `pages * rows` rows of data. */
  lemma RowInSource(pages: nat, rows: nat, rowSize: nat, page: nat, row: nat)
    requires page < pages && row < rows
    ensures (page * rows + row) * rowSize + rowSize == (page * rows + row + 1) * rowSize
    ensures (page * rows + row + 1) * rowSize <= pages * rows * rowSize
  {
    MulMono(page, pages - 1, rows);
    assert (pages - 1) * rows + rows == pages * rows;
    MulMono(page * rows + row + 1, pages * rows, rowSize);
  }

  /** Every destination row of the copy ends inside memory of `length` bytes. */
  predicate DestFits(length: nat, c: RowCopy)
  {
    forall page: nat, row: nat :: page < c.pages && row < c.rows ==> DestOffset(c, page, row) + c.rowSize <= length
  }

  /** The memory after copying one row; unchanged when the source row is missing. */
  function WriteRow(m: seq<byte>, src: seq<byte>, c: RowCopy, page: nat, row: nat): (r: seq<byte>)
    ensures |r| == |m|
  {
    var s := SourceOffset(c, page, row);
    if s + c.rowSize <= |src| then Overwrite(m, DestOffset(c, page, row), src[s..s + c.rowSize]) else m
  }

  /** The memory after copying the first `n` rows of page `page`. */
  function WriteRows(m: seq<byte>, src: seq<byte>, c: RowCopy, page: nat, n: nat): (r: seq<byte>)
    ensures |r| == |m|
  {
    if n == 0 then m else WriteRow(WriteRows(m, src, c, page, n - 1), src, c, page, n - 1)
  }

  /** The memory after copying the first `n` pages. */
  function WritePages(m: seq<byte>, src: seq<byte>, c: RowCopy, n: nat): (r: seq<byte>)
    ensures |r| == |m|
  {
    if n == 0 then m else WriteRows(WritePages(m, src, c, n - 1), src, c, n - 1, c.rows)
  }

  /** A copied row that no later row overlaps holds its source bytes. */
  lemma WriteRowHolds(m: seq<byte>, src: seq<byte>, c: RowCopy, page: nat, row: nat)
    requires page < c.pages && row < c.rows && |src| == c.pages * c.rows * c.rowSize
    requires DestOffset(c, page, row) + c.rowSize <= |m|
    ensures SourceOffset(c, page, row) + c.rowSize <= |src|
    ensures WriteRow(m, src, c, page, row)[DestOffset(c, page, row)..DestOffset(c, page, row) + c.rowSize]
         == src[SourceOffset(c, page, row)..SourceOffset(c, page, row) + c.rowSize]
  {
    RowInSource(c.pages, c.rows, c.rowSize, page, row);
    var s := SourceOffset(c, page, row);
    assert s + c.rowSize <= |src|;
    assert WriteRow(m, src, c, page, row) == Overwrite(m, DestOffset(c, page, row), src[s..s + c.rowSize]);
    OverwriteSlice(m, DestOffset(c, page, row), src[s..s + c.rowSize]);
  }

  /** The row loops of SetData_D3D11 on a dynamic texture, reading each page's own rows. */
  method CopyRowsIn(mem: array<byte>, src: seq<byte>, c: RowCopy)
    requires |src| == c.pages * c.rows * c.rowSize
    requires DestFits(mem.Length, c)
    modifies mem
    ensures mem[..] == WritePages(old(mem[..]), src, c, c.pages)
  {
    ghost var m0 := mem[..];
    for page := 0 to c.pages
      invariant mem[..] == WritePages(m0, src, c, page)
    {
      CopyPageIn(mem, src, c, page);
    }
  }

  /** One page of CopyRowsIn: its rows in order. */
  method CopyPageIn(mem: array<byte>, src: seq<byte>, c: RowCopy, page: nat)
    requires |src| == c.pages * c.rows * c.rowSize && page < c.pages
    requires DestFits(mem.Length, c)
    modifies mem
    ensures mem[..] == WriteRows(old(mem[..]), src, c, page, c.rows)
  {
    ghost var start := mem[..];
    for row := 0 to c.rows
      invariant mem[..] == WriteRows(start, src, c, page, row)
    {
      assert DestOffset(c, page, row) + c.rowSize <= mem.Length;
      CopyRowIn(mem, src, c, page, row);
    }
  }

  /** One row of CopyPageIn: the page's own source row, copied to its place in mapped memory. */
  method CopyRowIn(mem: array<byte>, src: seq<byte>, c: RowCopy, page: nat, row: nat)
    requires |src| == c.pages * c.rows * c.rowSize && page < c.pages && row < c.rows
    requires DestOffset(c, page, row) + c.rowSize <= mem.Length
    modifies mem
    ensures mem[..] == WriteRow(old(mem[..]), src, c, page, row)
  {
    RowInSource(c.pages, c.rows, c.rowSize, page, row);
    var s := SourceOffset(c, page, row);
    CopyInto(mem, DestOffset(c, page, row), src[s..s + c.rowSize]);
  }

  // ---------------------------------------------------------------------
  // Row copies out of a staging copy (GetData)

  /** A mapped staging texture: `pages` pages of `rows` rows of `rowSize` bytes at the given pitches. */
  datatype Staging = Staging(pages: nat, rows: nat, rowSize: nat, rowPitch: nat, depthPitch: nat)

  function StagingOffset(s: Staging, page: nat, row: nat): nat
  {
    page * s.depthPitch + row * s.rowPitch
  }

  /** Every row of the staging layout lies inside `length` bytes of mapped memory. */
  predicate StagingFits(length: nat, s: Staging)
  {
    forall page: nat, row: nat :: page < s.pages && row < s.rows ==> StagingOffset(s, page, row) + s.rowSize <= length
  }

  /** The first `n` rows of page `page`, one after another. */
  function GatherRows(mapped: seq<byte>, s: Staging, page: nat, n: nat): (r: seq<byte>)
    requires StagingFits(|mapped|, s) && page < s.pages && n <= s.rows
    ensures |r| == n * s.rowSize
  {
    if n == 0 then []
    else
      var o := StagingOffset(s, page, n - 1);
      GatherRows(mapped, s, page, n - 1) + mapped[o..o + s.rowSize]
  }

  /** The first `n` pages, each as its rows one after another. */
  function GatherPages(mapped: seq<byte>, s: Staging, n: nat): (r: seq<byte>)
    requires StagingFits(|mapped|, s) && n <= s.pages
    ensures |r| == n * s.rows * s.rowSize
  {
    if n == 0 then []
    else
      assert n * s.rows * s.rowSize == (n - 1) * s.rows * s.rowSize + s.rows * s.rowSize;
      GatherPages(mapped, s, n - 1) + GatherRows(mapped, s, n - 1, s.rows)
  }

  /** Row `row` of the gathered page holds that row of the staging memory. */
  lemma GatherRowsAt(mapped: seq<byte>, s: Staging, page: nat, n: nat, row: nat)
    requires StagingFits(|mapped|, s) && page < s.pages && row < n <= s.rows
    ensures (row + 1) * s.rowSize <= |GatherRows(mapped, s, page, n)|
    ensures GatherRows(mapped, s, page, n)[row * s.rowSize..(row + 1) * s.rowSize]
         == mapped[StagingOffset(s, page, row)..StagingOffset(s, page, row) + s.rowSize]
  {
    RowStepBound(0, row, n, s.rowSize);
    GatherRowAtOffset(mapped, s, page, n, row, row * s.rowSize);
  }

  /** The same, with the row's start in the gathered page given as `lo`. */
  lemma {:induction false} GatherRowAtOffset(mapped: seq<byte>, s: Staging, page: nat, n: nat, row: nat, lo: nat)
    requires StagingFits(|mapped|, s) && page < s.pages && row < n <= s.rows && lo == row * s.rowSize
    ensures lo + s.rowSize <= |GatherRows(mapped, s, page, n)|
    ensures GatherRows(mapped, s, page, n)[lo..lo + s.rowSize]
         == mapped[StagingOffset(s, page, row)..StagingOffset(s, page, row) + s.rowSize]
    decreases n
  {
    var prev := GatherRows(mapped, s, page, n - 1);
    var o := StagingOffset(s, page, n - 1);
    var chunk := mapped[o..o + s.rowSize];
    assert GatherRows(mapped, s, page, n) == prev + chunk;
    if row < n - 1 {
      GatherRowAtOffset(mapped, s, page, n - 1, row, lo);
      SliceInFront(prev, chunk, lo, lo + s.rowSize);
    } else {
      assert lo == |prev|;
      SliceAtEnd(prev, chunk);
    }
  }

  /** The destination of GetData_D3D11: rows of all pages back to back, pitches removed. */
  method GatherInto(dest: array<byte>, mapped: seq<byte>, s: Staging)
    requires StagingFits(|mapped|, s) && dest.Length == s.pages * s.rows * s.rowSize
    modifies dest
    ensures dest[..] == GatherPages(mapped, s, s.pages)
  {
    for page := 0 to s.pages
      invariant page * s.rows * s.rowSize <= dest.Length
      invariant dest[..page * s.rows * s.rowSize] == GatherPages(mapped, s, page)
    {
      GatherPageInto(dest, mapped, s, page);
    }
    assert dest[..] == dest[..s.pages * s.rows * s.rowSize];
  }

  /** One page of GatherInto: its rows go right after the pages before it. */
  method GatherPageInto(dest: array<byte>, mapped: seq<byte>, s: Staging, page: nat)
    requires StagingFits(|mapped|, s) && dest.Length == s.pages * s.rows * s.rowSize && page < s.pages
    requires page * s.rows * s.rowSize <= dest.Length
    requires dest[..page * s.rows * s.rowSize] == GatherPages(mapped, s, page)
    modifies dest
    ensures (page + 1) * s.rows * s.rowSize <= dest.Length
    ensures dest[..(page + 1) * s.rows * s.rowSize] == GatherPages(mapped, s, page + 1)
  {
    PageEnd(s, page);
    PageBound(s, page);
    var at := GatherRowsInto(dest, mapped, s, page, page * s.rows * s.rowSize, GatherPages(mapped, s, page));
    assert GatherPages(mapped, s, page + 1) == GatherPages(mapped, s, page) + GatherRows(mapped, s, page, s.rows);
  }

  /** The row loop of GatherPageInto, from `base`, the end of the pages before. */
  method GatherRowsInto(dest: array<byte>, mapped: seq<byte>, s: Staging, page: nat, base: nat, ghost done: seq<byte>)
      returns (at: nat)
    requires StagingFits(|mapped|, s) && page < s.pages
    requires base == page * s.rows * s.rowSize && base + s.rows * s.rowSize <= dest.Length
    requires dest[..base] == done
    modifies dest
    ensures at == base + s.rows * s.rowSize
    ensures dest[..at] == done + GatherRows(mapped, s, page, s.rows)
  {
    at := base;
    assert dest[..at] == done + GatherRows(mapped, s, page, 0);
    for row := 0 to s.rows
      invariant at == base + row * s.rowSize && at <= dest.Length
      invariant dest[..at] == done + GatherRows(mapped, s, page, row)
    {
      RowStepBound(base, row, s.rows, s.rowSize);
      GatherRowInto(dest, mapped, s, page, row, at, done);
      at := at + s.rowSize;
    }
  }

  /** One row of GatherRowsInto: the row's bytes go right after what is gathered so far. */
  method GatherRowInto(dest: array<byte>, mapped: seq<byte>, s: Staging, page: nat, row: nat, at: nat, ghost done: seq<byte>)
    requires StagingFits(|mapped|, s) && page < s.pages && row < s.rows
    requires at + s.rowSize <= dest.Length
    requires dest[..at] == done + GatherRows(mapped, s, page, row)
    modifies dest
    ensures dest[..at + s.rowSize] == done + GatherRows(mapped, s, page, row + 1)
  {
    ghost var prefix := GatherRows(mapped, s, page, row);
    var o := StagingOffset(s, page, row);
    ghost var before := dest[..];
    CopyInto(dest, at, mapped[o..o + s.rowSize]);
    AppendedAt(before, dest[..], at, mapped[o..o + s.rowSize], done + prefix);
    ConcatAssoc(done, prefix, mapped[o..o + s.rowSize]);
  }

  /** The next row of a page still ends inside the page. */
  lemma RowStepBound(base: nat, row: nat, rows: nat, rowSize: nat)
    requires row < rows
    ensures base + row * rowSize + rowSize == base + (row + 1) * rowSize <= base + rows * rowSize
  {
    MulMono(row + 1, rows, rowSize);
  }

  /** A page that exists ends inside the pages. */
  lemma PageBound(s: Staging, page: nat)
    requires page < s.pages
    ensures (page + 1) * s.rows * s.rowSize <= s.pages * s.rows * s.rowSize
  {
    MulMono(page + 1, s.pages, s.rows);
    MulMono((page + 1) * s.rows, s.pages * s.rows, s.rowSize);
  }

  /** A full page of rows ends where the next page starts. */
  lemma PageEnd(s: Staging, page: nat)
    ensures page * s.rows * s.rowSize + s.rows * s.rowSize == (page + 1) * s.rows * s.rowSize
  {
  }

  /** Writing `d` at `at` over memory whose first `at` bytes are `prefix` leaves `prefix + d` in front. */
  lemma AppendedAt(before: seq<byte>, after: seq<byte>, at: nat, d: seq<byte>, prefix: seq<byte>)
    requires at + |d| <= |before| && after == Overwrite(before, at, d) && before[..at] == prefix
    ensures after[..at + |d|] == prefix + d
  {
    OverwritePrefix(before, at, d);
  }

  // ---------------------------------------------------------------------
  // Mip levels

  /** Whether every dimension divided by 2^skip is at least one 4x4 block. */
  predicate SkipKeepsBlocks(width: nat, height: nat, depth: nat, skip: nat)
  {
    width / Pow2(skip) >= 4 && height / Pow2(skip) >= 4 && depth / Pow2(skip) >= 4
  }

  /** The quality setting's mip skip, clamped to the image's last level. */
  function MipCap(requested: nat, levels: nat): nat
    requires levels >= 1
  {
    if requested >= levels then levels - 1 else requested
  }

  /**
   * The compressed branch of SetData_D3D11(Image*): clamp the skip to the last level,
   * then lower it until every dimension keeps at least 4 texels.
   */
  method ClampMipSkip(requested: nat, levels: nat, width: nat, height: nat, depth: nat) returns (skip: nat)
    requires levels >= 1
    ensures skip <= requested && skip < levels
    ensures skip == 0 || SkipKeepsBlocks(width, height, depth, skip)
    ensures forall s: nat :: skip < s <= MipCap(requested, levels) ==> !SkipKeepsBlocks(width, height, depth, s)
  {
    skip := requested;
    if skip >= levels {
      skip := levels - 1;
    }
    while skip != 0 && !SkipKeepsBlocks(width, height, depth, skip)
      invariant skip <= MipCap(requested, levels)
      invariant forall s: nat :: skip < s <= MipCap(requested, levels) ==> !SkipKeepsBlocks(width, height, depth, s)
    {
      skip := skip - 1;
    }
  }

  /** The size and level count the compressed branch passes to SetNumLevels and SetSize. */
  method PlanCompressedLoad(requested: nat, levels: nat, width: nat, height: nat, depth: nat)
    returns (skip: nat, newWidth: nat, newHeight: nat, newDepth: nat, numLevels: nat)
    requires levels >= 1
    ensures skip <= MipCap(requested, levels)
    ensures numLevels == levels - skip && numLevels >= 1
    ensures newWidth == width / Pow2(skip) && newHeight == height / Pow2(skip) && newDepth == depth / Pow2(skip)
    ensures skip > 0 ==> newWidth >= 4 && newHeight >= 4 && newDepth >= 4
  {
    skip := ClampMipSkip(requested, levels, width, height, depth);
    newWidth := width / Pow2(skip);
    newHeight := height / Pow2(skip);
    newDepth := depth / Pow2(skip);
    numLevels := if levels - skip > 1 then levels - skip else 1;
  }

  function Above1(v: nat): nat
  {
    if v > 1 then v else 0
  }

  /** The full mip chain length: one level more for each halving until all dimensions reach 1. */
  function MaxLevels(width: nat, height: nat, depth: nat): (r: nat)
    ensures r >= 1
    ensures width <= 1 && height <= 1 && depth <= 1 <==> r == 1
    decreases Above1(width) + Above1(height) + Above1(depth)
  {
    if width <= 1 && height <= 1 && depth <= 1 then 1
    else 1 + MaxLevels(if width > 1 then width / 2 else 1, if height > 1 then height / 2 else 1,
                       if depth > 1 then depth / 2 else 1)
  }

  /** CheckMaxLevels: the requested count, or the full chain when none is requested or too many are. */
  function CheckMaxLevels(width: nat, height: nat, depth: nat, requested: nat): (r: nat)
    ensures 1 <= r <= MaxLevels(width, height, depth)
    ensures requested != 0 && requested <= MaxLevels(width, height, depth) ==> r == requested
    ensures requested == 0 || requested > MaxLevels(width, height, depth) ==> r == MaxLevels(width, height, depth)
  {
    var m := MaxLevels(width, height, depth);
    if requested == 0 || m < requested then m else requested
  }

  // ---------------------------------------------------------------------
  // The texture

  /** Mapped memory of a dynamic texture level with the driver's pitches. */
  datatype Mapping = Mapping(memory: array<byte>, rowPitch: nat, depthPitch: nat)

  class Texture3D {
    const graphicsPresent: bool
    const usage: TextureUsage
    const format: PixelFormat
    const width: nat
    const height: nat
    const depth: nat
    const requestedLevels: nat
    var levels: nat
    /** Whether the texture object (object_.ptr_) exists. */
    var hasObject: bool
    var hasView: bool
    var gpuCalls: seq<GpuCall>

    predicate Valid()
      reads this
    {
      hasView ==> hasObject
    }

    constructor (graphics: bool, u: TextureUsage, f: PixelFormat, w: nat, h: nat, d: nat, requested: nat)
      ensures Valid() && graphicsPresent == graphics && usage == u && format == f
      ensures width == w && height == h && depth == d && requestedLevels == requested
      ensures levels == 0 && !hasObject && !hasView && gpuCalls == []
    {
      graphicsPresent := graphics;
      usage := u;
      format := f;
      width := w;
      height := h;
      depth := d;
      requestedLevels := requested;
      levels := 0;
      hasObject := false;
      hasView := false;
      gpuCalls := [];
    }

    predicate IsCompressed()
    {
      format.Compressed?
    }

    /** The checks SetData_D3D11 makes before touching the texture. */
    predicate SetDataAccepted(level: nat, b: Box, dataPresent: bool)
      reads this
    {
      && hasObject && dataPresent && level < levels
      && InLevel(b, LevelExtent(width, level), LevelExtent(height, level), LevelExtent(depth, level))
    }

    /** The row copy of a dynamic update: the aligned region, in rows of blocks when compressed. */
    function DynamicCopy(b: Box, m: Mapping): (c: RowCopy)
      requires b.x >= 0 && b.y >= 0 && b.z >= 0 && b.width >= 0 && b.height >= 0 && b.depth >= 0
      ensures c.pages == b.depth && c.z == b.z
      ensures c.rows == NumRows(IsCompressed(), AlignBox(IsCompressed(), b).height)
      ensures c.rowSize == RowDataSize(format, AlignBox(IsCompressed(), b).width)
      ensures c.rowStart == RowDataSize(format, AlignBox(IsCompressed(), b).x)
      ensures IsCompressed() ==> c.y * 4 == AlignBox(IsCompressed(), b).y
      ensures !IsCompressed() ==> c.y == b.y
    {
      var a := AlignBox(IsCompressed(), b);
      RowCopy(b.depth, NumRows(IsCompressed(), a.height), b.z, if IsCompressed() then a.y / 4 else a.y,
              RowDataSize(format, a.x), RowDataSize(format, a.width), m.rowPitch, m.depthPitch)
    }

    /** The UpdateSubresource call of a non-dynamic update. */
    function BoxUpdate(level: nat, b: Box, data: seq<byte>): (r: GpuCall)
      requires b.x >= 0 && b.y >= 0 && b.z >= 0 && b.width >= 0 && b.height >= 0 && b.depth >= 0
      ensures r.UpdateSubresource? && r.level == level && r.data == data
      ensures r.left == AlignBox(IsCompressed(), b).x && r.right == r.left + AlignBox(IsCompressed(), b).width
      ensures r.top == AlignBox(IsCompressed(), b).y && r.bottom == r.top + AlignBox(IsCompressed(), b).height
      ensures r.front == b.z && r.back == b.z + b.depth
      ensures r.rowPitch == RowDataSize(format, AlignBox(IsCompressed(), b).width)
      ensures r.depthPitch == NumRows(IsCompressed(), LevelExtent(height, level)) * r.rowPitch
    {
      var a := AlignBox(IsCompressed(), b);
      var rowSize := RowDataSize(format, a.width);
      UpdateSubresource(level, a.x, a.x + a.width, a.y, a.y + a.height, b.z, b.z + b.depth,
                        data, rowSize, NumRows(IsCompressed(), LevelExtent(height, level)) * rowSize)
    }

    /** What the source requires of the caller's data and of the driver's mapping for a dynamic update. */
    predicate DynamicCopyFits(b: Box, data: seq<byte>, m: Mapping)
      requires b.x >= 0 && b.y >= 0 && b.z >= 0 && b.width >= 0 && b.height >= 0 && b.depth >= 0
    {
      var c := DynamicCopy(b, m);
      |data| == c.pages * c.rows * c.rowSize && DestFits(m.memory.Length, c)
    }

    /**
     * SetData_D3D11: check and align the region, then copy its rows into the mapped level
     * of a dynamic texture (`mapping` is None when Map fails), or issue UpdateSubresource.
     */
    method SetData(level: nat, b: Box, data: Option<seq<byte>>, mapping: Option<Mapping>) returns (ok: bool)
      requires SetDataAccepted(level, b, data.Some?) && usage == Dynamic && mapping.Some? ==>
        DynamicCopyFits(b, data.value, mapping.value)
      modifies this`gpuCalls, if mapping.Some? then {mapping.value.memory} else {}
      ensures ok <==> SetDataAccepted(level, b, data.Some?) && (usage == Dynamic ==> mapping.Some?)
      ensures !ok ==> gpuCalls == old(gpuCalls)
      ensures !ok && mapping.Some? ==> mapping.value.memory[..] == old(mapping.value.memory[..])
      ensures ok && usage == Dynamic ==>
        gpuCalls == old(gpuCalls)
        && mapping.value.memory[..]
           == WritePages(old(mapping.value.memory[..]), data.value, DynamicCopy(b, mapping.value), b.depth)
      ensures ok && usage != Dynamic ==> gpuCalls == old(gpuCalls) + [BoxUpdate(level, b, data.value)]
    {
      if !hasObject || data.None? || level >= levels {
        return false;
      }
      if !InLevel(b, LevelExtent(width, level), LevelExtent(height, level), LevelExtent(depth, level)) {
        return false;
      }
      if usage == Dynamic {
        if mapping.None? {
          return false;
        }
        var c := DynamicCopy(b, mapping.value);
        CopyRowsIn(mapping.value.memory, data.value, c);
      } else {
        gpuCalls := gpuCalls + [BoxUpdate(level, b, data.value)];
      }
      return true;
    }

    /** The layout GetData_D3D11 reads from the mapped staging copy of a level. */
    function StagingOf(level: nat, rowPitch: nat, depthPitch: nat): (s: Staging)
      ensures s.pages == LevelExtent(depth, level)
      ensures s.rows == NumRows(IsCompressed(), LevelExtent(height, level))
      ensures s.rowSize == RowDataSize(format, LevelExtent(width, level))
    {
      Staging(LevelExtent(depth, level), NumRows(IsCompressed(), LevelExtent(height, level)),
              RowDataSize(format, LevelExtent(width, level)), rowPitch, depthPitch)
    }

    /**
     * GetData_D3D11: copy a level out through a staging texture. `stagingOk` is whether
     * the staging texture is created; `staged` is the mapped copy, None when Map fails.
     */
    method GetData(level: nat, dest: array?<byte>, stagingOk: bool, staged: Option<(seq<byte>, nat, nat)>)
      returns (ok: bool)
      requires hasObject && dest != null && level < levels && stagingOk && staged.Some? ==>
        var s := StagingOf(level, staged.value.1, staged.value.2);
        StagingFits(|staged.value.0|, s) && dest.Length == s.pages * s.rows * s.rowSize
      modifies dest
      ensures ok <==> hasObject && dest != null && level < levels && stagingOk && staged.Some?
      ensures !ok && dest != null ==> dest[..] == old(dest[..])
      ensures ok ==> dest[..] == GatherPages(staged.value.0, StagingOf(level, staged.value.1, staged.value.2),
                                             LevelExtent(depth, level))
    {
      if !hasObject || dest == null || level >= levels || !stagingOk || staged.None? {
        return false;
      }
      GatherInto(dest, staged.value.0, StagingOf(level, staged.value.1, staged.value.2));
      return true;
    }

    /** Release_D3D11: drop the texture object and its view. */
    method Release()
      modifies this`hasObject, this`hasView
      ensures Valid() && !hasObject && !hasView
    {
      hasObject := false;
      hasView := false;
    }

    /**
     * Create_D3D11: release, then create the texture and its shader resource view;
     * `createOk` and `viewOk` are whether Direct3D creates them.
     */
    method Create(createOk: bool, viewOk: bool) returns (ok: bool)
      modifies this`hasObject, this`hasView, this`levels, this`gpuCalls
      ensures Valid()
      ensures ok <==> graphicsPresent && width != 0 && height != 0 && depth != 0 && createOk && viewOk
      ensures !(graphicsPresent && width != 0 && height != 0 && depth != 0) ==>
        !hasObject && levels == old(levels) && gpuCalls == old(gpuCalls)
      ensures graphicsPresent && width != 0 && height != 0 && depth != 0 ==>
        && levels == CheckMaxLevels(width, height, depth, requestedLevels)
        && hasObject == createOk && hasView == (createOk && viewOk)
        && var mip := if usage != Dynamic then levels else 1;
           gpuCalls == old(gpuCalls) + [CreateTexture(width, height, depth, mip, usage == Dynamic)]
                       + (if createOk then [CreateView(mip)] else [])
    {
      Release();
      if !graphicsPresent || width == 0 || height == 0 || depth == 0 {
        return false;
      }
      levels := CheckMaxLevels(width, height, depth, requestedLevels);
      var mip := if usage != Dynamic then levels else 1;
      gpuCalls := gpuCalls + [CreateTexture(width, height, depth, mip, usage == Dynamic)];
      if !createOk {
        hasObject := false;
        return false;
      }
      hasObject := true;
      gpuCalls := gpuCalls + [CreateView(mip)];
      if !viewOk {
        return false;
      }
      hasView := true;
      return true;
    }
  }
}
