/**
 * The bitmap font face: its glyph table (character code to glyph rectangle, offsets,
 * advance and texture page) and kerning table (packed character pair to amount), read
 * from and written to the AngelCode-style XML description, the copy that keeps only
 * the glyphs in use and repacks them onto fresh pages, and the rectangle copy between
 * images that the repacking uses. The XML tree is reduced to the elements and numeric
 * attributes the face reads and writes; image decoding, texture upload and the area
 * allocator are not modelled, and their outcomes are parameters.
 */
module FontFaceBitmap {
  import opened Str
  import opened Bytes
  import FileSystem
  import opened Arith

  // ---------------------------------------------------------------------------
  // Integer conversions

  const I32_LIMIT: int := 0x8000_0000

  /** `(short)v`: the two's-complement truncation to 16 bits. */
  function Short(v: int): (r: int)
    ensures -0x8000 <= r < 0x8000
    ensures -0x8000 <= v < 0x8000 ==> r == v
  {
    (v + 0x8000) % 0x1_0000 - 0x8000
  }

  predicate IsShort(v: int)
  {
    -0x8000 <= v < 0x8000
  }

  /** An int converted to a 32-bit unsigned integer (c32, unsigned). */
  function ToU32(v: int): (r: nat)
    ensures r < U32_LIMIT
    ensures 0 <= v < U32_LIMIT ==> r == v
  {
    v % U32_LIMIT
  }

  /** A 32-bit unsigned integer passed where an int is expected (SetI32). */
  function ToI32(v: nat): (r: int)
    requires v < U32_LIMIT
    ensures -I32_LIMIT <= r < I32_LIMIT
  {
    if v < I32_LIMIT then v else v - U32_LIMIT
  }

  lemma I32RoundTrip(v: nat)
    requires v < U32_LIMIT
    ensures ToU32(ToI32(v)) == v
  {
    if v >= I32_LIMIT {
      U32Wrap(v);
    }
  }

  lemma U32Wrap(v: nat)
    requires I32_LIMIT <= v < U32_LIMIT
    ensures (v - U32_LIMIT) % U32_LIMIT == v
  {
    assert v - U32_LIMIT == -1 * U32_LIMIT + v;
  }

  // ---------------------------------------------------------------------------
  // Kerning keys

  const HALF: nat := 0x1_0000

  /** Bitwise or of two naturals. */
  function BitOr(a: nat, b: nat): nat
    decreases a + b
  {
    if a == 0 then b
    else if b == 0 then a
    else 2 * BitOr(a / 2, b / 2) + (if a % 2 == 1 || b % 2 == 1 then 1 else 0)
  }

  function Pow2(k: nat): (r: nat)
    ensures r > 0
  {
    if k == 0 then 1 else 2 * Pow2(k - 1)
  }

  lemma {:induction false} Pow2Add(a: nat, b: nat)
    ensures Pow2(a + b) == Pow2(a) * Pow2(b)
    decreases a
  {
    if a > 0 {
      Pow2Add(a - 1, b);
    }
  }

  /** The bit widths the kerning key uses. */
  lemma Pow2Widths()
    ensures Pow2(16) == HALF && Pow2(32) == U32_LIMIT
  {
    assert Pow2(2) == 4;
    Pow2Add(2, 2);
    Pow2Add(4, 4);
    Pow2Add(8, 8);
    Pow2Add(16, 16);
  }

  /** Or-ing a value into the clear low `k` bits of another adds it. */
  lemma {:induction false} BitOrDisjoint(a: nat, k: nat, b: nat)
    requires b < Pow2(k)
    ensures BitOr(a * Pow2(k), b) == a * Pow2(k) + b
    decreases k
  {
    if a != 0 && b != 0 {
      var p := Pow2(k - 1);
      assert a * Pow2(k) == 2 * (a * p);
      assert (a * Pow2(k)) / 2 == a * p && (a * Pow2(k)) % 2 == 0;
      BitOrDisjoint(a, k - 1, b / 2);
    }
  }

  /** Or-ing two `k`-bit values gives a `k`-bit value. */
  lemma {:induction false} BitOrBound(a: nat, b: nat, k: nat)
    requires a < Pow2(k) && b < Pow2(k)
    ensures BitOr(a, b) < Pow2(k)
    decreases k
  {
    if a != 0 && b != 0 {
      BitOrBound(a / 2, b / 2, k - 1);
    }
  }

  /** The kerning key of a character pair: `first << 16 | second` in 32-bit unsigned arithmetic. */
  function KerningKey(first: nat, second: nat): (key: nat)
    requires first < U32_LIMIT && second < U32_LIMIT
    ensures key < U32_LIMIT
  {
    Pow2Widths();
    BitOrBound((first * HALF) % U32_LIMIT, second, 32);
    BitOr((first * HALF) % U32_LIMIT, second)
  }

  /** The first character of a kerning key, `key >> 16`. */
  function KeyFirst(key: nat): nat
  {
    key / HALF
  }

  /** The second character of a kerning key, `key & 0xffff`. */
  function KeySecond(key: nat): nat
  {
    key % HALF
  }

  /** A pair of characters below 0x10000 packs to `first * 0x10000 + second`. */
  lemma KerningKeyValue(first: nat, second: nat)
    requires first < HALF && second < HALF
    ensures KerningKey(first, second) == first * HALF + second
  {
    HighHalfNoWrap(first);
    Pow2Widths();
    BitOrDisjoint(first, 16, second);
  }

  /** Shifting a value below 0x10000 left by 16 bits stays below 2^32. */
  lemma HighHalfNoWrap(first: nat)
    requires first < HALF
    ensures (first * HALF) % U32_LIMIT == first * HALF
  {
    assert first * HALF <= (HALF - 1) * HALF;
  }

  /** Packing two characters below 0x10000 and unpacking the key gives them back. */
  lemma KerningKeyRoundTrip(first: nat, second: nat)
    requires first < HALF && second < HALF
    ensures KeyFirst(KerningKey(first, second)) == first
    ensures KeySecond(KerningKey(first, second)) == second
  {
    KerningKeyValue(first, second);
  }

  /** Every 32-bit key is the packing of its two halves, which are both below 0x10000. */
  lemma KerningKeySplit(key: nat)
    requires key < U32_LIMIT
    ensures KeyFirst(key) < HALF && KeySecond(key) < HALF
    ensures KerningKey(KeyFirst(key), KeySecond(key)) == key
  {
    KerningKeyValue(KeyFirst(key), KeySecond(key));
  }

  // ---------------------------------------------------------------------------
  // Texture formats

  /** The texture formats the face tells apart; the graphics API's codes are abstract. */
  datatype TextureFormat = FormatRGBA | FormatRGB | FormatLuminanceAlpha | FormatAlpha | FormatOther(code: nat)

  /** ConvertFormatToNumComponents: 4 for RGBA, 3 for RGB, 2 for luminance-alpha, 1 otherwise. */
  function NumComponents(f: TextureFormat): (r: nat)
    ensures 1 <= r <= 4
    ensures r == 4 <==> f == FormatRGBA
    ensures r == 3 <==> f == FormatRGB
    ensures r == 2 <==> f == FormatLuminanceAlpha
  {
    match f
    case FormatRGBA => 4
    case FormatRGB => 3
    case FormatLuminanceAlpha => 2
    case _ => 1
  }

  /** The format a face texture gets from an image with `components` components (alpha for one). */
  function FormatOf(components: nat): TextureFormat
  {
    if components == 4 then FormatRGBA
    else if components == 3 then FormatRGB
    else if components == 2 then FormatLuminanceAlpha
    else FormatAlpha
  }

  /** Uploading an image and reading back the texture's component count gives the image's count. */
  lemma ComponentsRoundTrip(components: nat)
    requires 1 <= components <= 4
    ensures NumComponents(FormatOf(components)) == components
  {
  }

  // ---------------------------------------------------------------------------
  // Glyphs and their XML elements

  datatype FontGlyph = FontGlyph(x: int, y: int, width: int, height: int, texWidth: int, texHeight: int,
                                 offsetX: int, offsetY: int, advanceX: int, page: int, used: bool)

  const DefaultGlyph := FontGlyph(0, 0, 0, 0, 0, 0, 0, 0, 0, 0, false)

  /** An XML element reduced to its integer attributes. */
  datatype Element = Element(attrs: map<string, int>)

  /** XMLElement::GetI32: the attribute's value, 0 when it is absent (or the element is null). */
  function GetI32(e: Option<Element>, name: string): int
  {
    if e.Some? && name in e.value.attrs then e.value.attrs[name] else 0
  }

  /** The glyph a <char> element describes, and the character it is for. */
  function GlyphOf(e: Element): (g: FontGlyph)
    ensures g.width == g.texWidth && g.height == g.texHeight && !g.used
  {
    var w := Short(GetI32(Some(e), "width"));
    var h := Short(GetI32(Some(e), "height"));
    FontGlyph(Short(GetI32(Some(e), "x")), Short(GetI32(Some(e), "y")), w, h, w, h,
              Short(GetI32(Some(e), "xoffset")), Short(GetI32(Some(e), "yoffset")),
              Short(GetI32(Some(e), "xadvance")), GetI32(Some(e), "page"), false)
  }

  function CharCode(e: Element): nat
  {
    ToU32(GetI32(Some(e), "id"))
  }

  /** The <char> element Save writes for character `code`. */
  function CharElement(code: nat, g: FontGlyph): Element
    requires code < U32_LIMIT
  {
    Element(map["id" := ToI32(code), "x" := g.x, "y" := g.y, "width" := g.width, "height" := g.height,
                "xoffset" := g.offsetX, "yoffset" := g.offsetY, "xadvance" := g.advanceX, "page" := g.page])
  }

  /** A glyph that survives a save and load: 16-bit fields, a square texture rectangle, no use mark. */
  predicate Representable(g: FontGlyph)
  {
    && IsShort(g.x) && IsShort(g.y) && IsShort(g.width) && IsShort(g.height)
    && IsShort(g.offsetX) && IsShort(g.offsetY) && IsShort(g.advanceX)
    && g.texWidth == g.width && g.texHeight == g.height
  }

  /** Reading back the element Save writes gives the glyph, with its use mark cleared. */
  lemma CharElementRoundTrip(code: nat, g: FontGlyph)
    requires code < U32_LIMIT && Representable(g)
    ensures CharCode(CharElement(code, g)) == code
    ensures GlyphOf(CharElement(code, g)) == g.(used := false)
  {
    I32RoundTrip(code);
  }

  /** The glyph table after reading the <char> elements in order: later elements win. */
  function GlyphTable(m: map<nat, FontGlyph>, chars: seq<Element>): (r: map<nat, FontGlyph>)
    ensures forall k :: k in r ==> k in m || k < U32_LIMIT
  {
    if chars == [] then m
    else
      var last := chars[|chars| - 1];
      GlyphTable(m, chars[..|chars| - 1])[CharCode(last) := GlyphOf(last)]
  }

  /** The <char> elements Save writes, one per character in the table's iteration order. */
  function CharElements(glyphs: map<nat, FontGlyph>, order: seq<nat>): (r: seq<Element>)
    requires forall k :: k in order ==> k in glyphs && k < U32_LIMIT
    ensures |r| == |order|
  {
    if order == [] then []
    else
      var k := order[|order| - 1];
      var init := order[..|order| - 1];
      assert forall j :: j in init ==> j in order;
      CharElements(glyphs, init) + [CharElement(k, glyphs[k])]
  }

  /** The table with every use mark cleared, as a load produces it. */
  function Cleared(glyphs: map<nat, FontGlyph>, keys: set<nat>): map<nat, FontGlyph>
    requires keys <= glyphs.Keys
  {
    map k | k in keys :: glyphs[k].(used := false)
  }

  /** The elements of a sequence with one more at the end. */
  lemma ElementsOfSnoc<T>(s: seq<T>, init: seq<T>)
    requires s != [] && init == s[..|s| - 1]
    ensures (set j | j in s) == (set j | j in init) + {s[|s| - 1]}
  {
    assert s == init + [s[|s| - 1]];
  }

  lemma ClearedInsert(glyphs: map<nat, FontGlyph>, keys: set<nat>, k: nat)
    requires keys <= glyphs.Keys && k in glyphs
    ensures Cleared(glyphs, keys + {k}) == Cleared(glyphs, keys)[k := glyphs[k].(used := false)]
  {
  }

  lemma GlyphTableSnoc(m: map<nat, FontGlyph>, chars: seq<Element>, e: Element)
    ensures GlyphTable(m, chars + [e]) == GlyphTable(m, chars)[CharCode(e) := GlyphOf(e)]
  {
    assert (chars + [e])[..|chars|] == chars;
  }

  /** Loading the elements written for a prefix of the iteration order restores those glyphs. */
  lemma {:induction false} GlyphTablePrefix(glyphs: map<nat, FontGlyph>, order: seq<nat>)
    requires forall k :: k in order ==> k in glyphs && k < U32_LIMIT && Representable(glyphs[k])
    ensures GlyphTable(map[], CharElements(glyphs, order)) == Cleared(glyphs, set k | k in order)
    decreases |order|
  {
    if order != [] {
      var init := order[..|order| - 1];
      var k := order[|order| - 1];
      assert forall j :: j in init ==> j in order;
      GlyphTablePrefix(glyphs, init);
      GlyphTableSnoc(map[], CharElements(glyphs, init), CharElement(k, glyphs[k]));
      CharElementRoundTrip(k, glyphs[k]);
      ElementsOfSnoc(order, init);
      ClearedInsert(glyphs, (set j | j in init), k);
    }
  }

  /** Saving the glyph table and loading it back gives the table with use marks cleared. */
  lemma GlyphTableRoundTrip(glyphs: map<nat, FontGlyph>, order: seq<nat>)
    requires forall k :: k in glyphs <==> k in order
    requires forall k :: k in glyphs ==> k < U32_LIMIT && Representable(glyphs[k])
    ensures GlyphTable(map[], CharElements(glyphs, order)) == Cleared(glyphs, glyphs.Keys)
  {
    ListedKeys(glyphs, order);
    GlyphTablePrefix(glyphs, order);
  }

  /** An order listing exactly the table's keys lists the key set. */
  lemma ListedKeys(glyphs: map<nat, FontGlyph>, order: seq<nat>)
    requires forall k :: k in glyphs <==> k in order
    ensures (set k | k in order) == glyphs.Keys
  {
  }

  // ---------------------------------------------------------------------------
  // Kerning elements

  /** The key and amount a <kerning> element describes. */
  function KerningKeyOf(e: Element): nat
  {
    KerningKey(ToU32(GetI32(Some(e), "first")), ToU32(GetI32(Some(e), "second")))
  }

  function AmountOf(e: Element): int
  {
    Short(GetI32(Some(e), "amount"))
  }

  /** The <kerning> element Save writes for `key`. */
  function KerningElement(key: nat, amount: int): Element
  {
    Element(map["first" := KeyFirst(key), "second" := KeySecond(key), "amount" := amount])
  }

  /** Reading back the element Save writes for a 32-bit key gives the key and a 16-bit amount. */
  lemma KerningElementRoundTrip(key: nat, amount: int)
    requires key < U32_LIMIT && IsShort(amount)
    ensures KerningKeyOf(KerningElement(key, amount)) == key
    ensures AmountOf(KerningElement(key, amount)) == amount
  {
    KerningKeySplit(key);
  }

  /** The kerning table after reading the <kerning> elements in order: later elements win. */
  function KerningTable(m: map<nat, int>, kernings: seq<Element>): (r: map<nat, int>)
    ensures forall k :: k in r ==> k in m || k < U32_LIMIT
  {
    if kernings == [] then m
    else
      var last := kernings[|kernings| - 1];
      KerningTable(m, kernings[..|kernings| - 1])[KerningKeyOf(last) := AmountOf(last)]
  }

  /** The <kerning> elements Save writes, one per key in the table's iteration order. */
  function KerningElements(kerning: map<nat, int>, order: seq<nat>): (r: seq<Element>)
    requires forall k :: k in order ==> k in kerning
    ensures |r| == |order|
  {
    if order == [] then []
    else
      var k := order[|order| - 1];
      var init := order[..|order| - 1];
      assert forall j :: j in init ==> j in order;
      KerningElements(kerning, init) + [KerningElement(k, kerning[k])]
  }

  /** The part of a kerning table on the given keys. */
  function Restrict(kerning: map<nat, int>, keys: set<nat>): map<nat, int>
    requires keys <= kerning.Keys
  {
    map k | k in keys :: kerning[k]
  }

  lemma RestrictInsert(kerning: map<nat, int>, keys: set<nat>, k: nat)
    requires keys <= kerning.Keys && k in kerning
    ensures Restrict(kerning, keys + {k}) == Restrict(kerning, keys)[k := kerning[k]]
  {
  }

  lemma KerningTableSnoc(m: map<nat, int>, kernings: seq<Element>, e: Element)
    ensures KerningTable(m, kernings + [e]) == KerningTable(m, kernings)[KerningKeyOf(e) := AmountOf(e)]
  {
    assert (kernings + [e])[..|kernings|] == kernings;
  }

  /** Loading the elements written for a prefix of the iteration order restores those entries. */
  lemma {:induction false} KerningTablePrefix(kerning: map<nat, int>, order: seq<nat>)
    requires forall k :: k in order ==> k in kerning && k < U32_LIMIT && IsShort(kerning[k])
    ensures KerningTable(map[], KerningElements(kerning, order)) == Restrict(kerning, set k | k in order)
    decreases |order|
  {
    if order != [] {
      var init := order[..|order| - 1];
      var k := order[|order| - 1];
      assert forall j :: j in init ==> j in order;
      KerningTablePrefix(kerning, init);
      KerningTableSnoc(map[], KerningElements(kerning, init), KerningElement(k, kerning[k]));
      KerningElementRoundTrip(k, kerning[k]);
      ElementsOfSnoc(order, init);
      RestrictInsert(kerning, (set j | j in init), k);
    }
  }

  /** Saving the kerning table and loading it back gives the same table. */
  lemma KerningTableRoundTrip(kerning: map<nat, int>, order: seq<nat>)
    requires forall k :: k in kerning <==> k in order
    requires forall k :: k in kerning ==> k < U32_LIMIT && IsShort(kerning[k])
    ensures KerningTable(map[], KerningElements(kerning, order)) == kerning
  {
    KerningTablePrefix(kerning, order);
    assert (set k | k in order) == kerning.Keys;
  }

  // ---------------------------------------------------------------------------
  // Rectangle copy between images

  /**
   * Where the rows of a rectangle copy lie: the byte offset of the first row and the row
   * stride in the destination and the source, the bytes copied per row, and the row count.
   */
  datatype BlitGeometry = BlitGeometry(destStart: int, destStride: int, sourceStart: int, sourceStride: int,
                                       rowLen: int, rows: nat)

  /** The geometry Blit derives from its arguments: each image's own width gives its stride. */
  function Geometry(destWidth: int, x: int, y: int, width: int, height: int,
                    sourceWidth: int, sourceX: int, sourceY: int, components: int): BlitGeometry
  {
    BlitGeometry((y * destWidth + x) * components, destWidth * components,
                 (sourceY * sourceWidth + sourceX) * components, sourceWidth * components,
                 width * components, if height < 0 then 0 else height)
  }

  /** The offset of row `i` of a copy that starts at `start` and advances `stride` per row. */
  function RowStart(start: int, stride: int, i: nat): int
  {
    if i == 0 then start else RowStart(start, stride, i - 1) + stride
  }

  /** Every row of the copy lies inside both buffers. */
  predicate InBounds(g: BlitGeometry, destLen: nat, sourceLen: nat)
  {
    && g.rowLen >= 0
    && (forall i: nat :: i < g.rows ==> RowFits(g.destStart, g.destStride, g.rowLen, i, destLen))
    && (forall i: nat :: i < g.rows ==> RowFits(g.sourceStart, g.sourceStride, g.rowLen, i, sourceLen))
  }

  /** Row `i` of a copy lies inside a buffer of `limit` bytes. */
  predicate RowFits(start: int, stride: int, len: int, i: nat, limit: nat)
  {
    0 <= RowStart(start, stride, i) && RowStart(start, stride, i) + len <= limit
  }

  /** The destination after the first `n` rows of the copy. */
  function BlitRows(dest: seq<byte>, source: seq<byte>, g: BlitGeometry, n: nat): (r: seq<byte>)
    requires n <= g.rows && InBounds(g, |dest|, |source|)
    ensures |r| == |dest|
  {
    if n == 0 then dest
    else
      var from := RowStart(g.sourceStart, g.sourceStride, n - 1);
      assert RowFits(g.destStart, g.destStride, g.rowLen, n - 1, |dest|);
      assert RowFits(g.sourceStart, g.sourceStride, g.rowLen, n - 1, |source|);
      Overwrite(BlitRows(dest, source, g, n - 1), RowStart(g.destStart, g.destStride, n - 1), source[from..from + g.rowLen])
  }

  /** Blit: copies `height` rows of `width * components` bytes, row by row, from `source` into `dest`. */
  method Blit(dest: array<byte>, destWidth: int, x: int, y: int, width: int, height: int,
              source: array<byte>, sourceWidth: int, sourceX: int, sourceY: int, components: int)
    requires dest != source
    requires InBounds(Geometry(destWidth, x, y, width, height, sourceWidth, sourceX, sourceY, components),
                      dest.Length, source.Length)
    modifies dest
    ensures dest[..] == BlitRows(old(dest[..]), source[..],
                                 Geometry(destWidth, x, y, width, height, sourceWidth, sourceX, sourceY, components),
                                 Geometry(destWidth, x, y, width, height, sourceWidth, sourceX, sourceY, components).rows)
  {
    var g := Geometry(destWidth, x, y, width, height, sourceWidth, sourceX, sourceY, components);
    ghost var d0 := dest[..];
    var destData := (y * destWidth + x) * components;
    var sourceData := (sourceY * sourceWidth + sourceX) * components;
    var i := 0;
    while i < height
      invariant 0 <= i <= g.rows
      invariant destData == RowStart(g.destStart, g.destStride, i)
      invariant sourceData == RowStart(g.sourceStart, g.sourceStride, i)
      invariant dest[..] == BlitRows(d0, source[..], g, i)
    {
      BlitRow(dest, source, g, d0, i, destData, sourceData);
      destData := destData + destWidth * components;
      sourceData := sourceData + sourceWidth * components;
      i := i + 1;
    }
  }

  /** One pass of Blit's loop: row `i` of the source is copied over the first `i` rows of the copy. */
  method BlitRow(dest: array<byte>, source: array<byte>, g: BlitGeometry, ghost d0: seq<byte>, i: nat,
                 destData: int, sourceData: int)
    requires dest != source && i < g.rows && InBounds(g, |d0|, source.Length) && dest.Length == |d0|
    requires destData == RowStart(g.destStart, g.destStride, i)
    requires sourceData == RowStart(g.sourceStart, g.sourceStride, i)
    requires dest[..] == BlitRows(d0, source[..], g, i)
    modifies dest
    ensures dest[..] == BlitRows(d0, source[..], g, i + 1)
  {
    assert RowFits(g.destStart, g.destStride, g.rowLen, i, dest.Length);
    assert RowFits(g.sourceStart, g.sourceStride, g.rowLen, i, source.Length);
    var row := source[sourceData..sourceData + g.rowLen];
    CopyInto(dest, destData, row);
  }

  /** With a stride of at least `len`, a later row starts after the end of an earlier one. */
  lemma RowsApart(start: int, stride: int, len: int, i: nat, j: nat)
    requires 0 <= len <= stride && i < j
    ensures RowStart(start, stride, i) + len <= RowStart(start, stride, j)
    decreases j
  {
    if i < j - 1 {
      RowsApart(start, stride, len, i, j - 1);
    }
  }

  /** A byte outside every destination row keeps its value. */
  lemma {:induction false} BlitOutside(dest: seq<byte>, source: seq<byte>, g: BlitGeometry, n: nat, k: nat)
    requires n <= g.rows && InBounds(g, |dest|, |source|) && k < |dest|
    requires forall i: nat :: i < n ==>
      !(RowStart(g.destStart, g.destStride, i) <= k < RowStart(g.destStart, g.destStride, i) + g.rowLen)
    ensures BlitRows(dest, source, g, n)[k] == dest[k]
  {
    if n > 0 {
      var off := RowStart(g.destStart, g.destStride, n - 1);
      var from := RowStart(g.sourceStart, g.sourceStride, n - 1);
      assert RowFits(g.destStart, g.destStride, g.rowLen, n - 1, |dest|);
      assert RowFits(g.sourceStart, g.sourceStride, g.rowLen, n - 1, |source|);
      var prev := BlitRows(dest, source, g, n - 1);
      OverwriteAt(prev, off, source[from..from + g.rowLen], k);
      BlitOutside(dest, source, g, n - 1, k);
    }
  }

  /**
   * When rows do not overlap in the destination (the row length is at most the stride),
   * every byte of every copied row holds the matching source byte: byte `j` of the `r`-th
   * row (row `r - 1`, for `r` from 1 to `n`).
   */
  lemma BlitInside(dest: seq<byte>, source: seq<byte>, g: BlitGeometry, n: nat, r: nat, j: nat)
    requires n <= g.rows && InBounds(g, |dest|, |source|)
    requires 0 <= g.rowLen <= g.destStride
    requires 0 < r <= n && j < g.rowLen
    ensures RowFits(g.destStart, g.destStride, g.rowLen, r - 1, |dest|)
         && RowFits(g.sourceStart, g.sourceStride, g.rowLen, r - 1, |source|)
    ensures BlitRows(dest, source, g, n)[RowStart(g.destStart, g.destStride, r - 1) + j]
         == source[RowStart(g.sourceStart, g.sourceStride, r - 1) + j]
  {
    BlitRowWritten(dest, source, g, r, j);
    BlitLaterKeeps(dest, source, g, n, r, j);
  }

  /** Copying the last of `n` rows puts the source row's bytes in place. */
  lemma BlitRowWritten(dest: seq<byte>, source: seq<byte>, g: BlitGeometry, n: nat, j: nat)
    requires 0 < n <= g.rows && InBounds(g, |dest|, |source|) && 0 <= j < g.rowLen
    requires RowFits(g.destStart, g.destStride, g.rowLen, n - 1, |dest|)
    requires RowFits(g.sourceStart, g.sourceStride, g.rowLen, n - 1, |source|)
    ensures BlitRows(dest, source, g, n)[RowStart(g.destStart, g.destStride, n - 1) + j]
         == source[RowStart(g.sourceStart, g.sourceStride, n - 1) + j]
  {
    OverwriteFrom(BlitRows(dest, source, g, n - 1), RowStart(g.destStart, g.destStride, n - 1),
                  source, RowStart(g.sourceStart, g.sourceStride, n - 1), g.rowLen, j);
  }

  /** The rows copied after the `r`-th leave its bytes alone when rows do not overlap. */
  lemma {:induction false} BlitLaterKeeps(dest: seq<byte>, source: seq<byte>, g: BlitGeometry, n: nat, r: nat, j: nat)
    requires 0 < r <= n <= g.rows && InBounds(g, |dest|, |source|)
    requires 0 <= g.rowLen <= g.destStride && j < g.rowLen
    requires RowFits(g.destStart, g.destStride, g.rowLen, r - 1, |dest|)
    ensures BlitRows(dest, source, g, n)[RowStart(g.destStart, g.destStride, r - 1) + j]
         == BlitRows(dest, source, g, r)[RowStart(g.destStart, g.destStride, r - 1) + j]
    decreases n
  {
    if n > r {
      BlitLaterKeeps(dest, source, g, n - 1, r, j);
      var off := RowStart(g.destStart, g.destStride, n - 1);
      var from := RowStart(g.sourceStart, g.sourceStride, n - 1);
      assert RowFits(g.destStart, g.destStride, g.rowLen, n - 1, |dest|);
      assert RowFits(g.sourceStart, g.sourceStride, g.rowLen, n - 1, |source|);
      var prev := BlitRows(dest, source, g, n - 1);
      var chunk := source[from..from + g.rowLen];
      BlitKeeps(prev, chunk, g.destStart, g.destStride, g.rowLen, r - 1, n - 1, j);
    }
  }

  /** A later row's copy leaves the bytes of an earlier row alone. */
  lemma BlitKeeps(prev: seq<byte>, chunk: seq<byte>, start: int, stride: int, len: int, i: nat, last: nat, j: nat)
    requires i < last && 0 <= len <= stride && j < len && |chunk| == len
    requires 0 <= RowStart(start, stride, last) && RowStart(start, stride, last) + len <= |prev|
    requires 0 <= RowStart(start, stride, i) + j < |prev|
    ensures Overwrite(prev, RowStart(start, stride, last), chunk)[RowStart(start, stride, i) + j]
         == prev[RowStart(start, stride, i) + j]
  {
    RowsApart(start, stride, len, i, last);
    OverwriteAt(prev, RowStart(start, stride, last), chunk, RowStart(start, stride, i) + j);
  }

  // ---------------------------------------------------------------------------
  // The font description document

  /** A <page> element: its id and the image file name relative to the description. */
  datatype PageElement = PageElement(id: int, file: string)

  /** The <chars> element: its glyph count attribute and its <char> children. */
  datatype CharsElement = CharsElement(count: int, chars: seq<Element>)

  /**
   * The parts of a <font> root the face reads and writes: the face name and the integer
   * attributes of <info>, the <common> element, the <pages>, <chars> and <kernings> lists
   * (None where the element is absent).
   */
  datatype FontDoc = FontDoc(face: string, info: Option<Element>, common: Option<Element>,
                             pages: Option<seq<PageElement>>, chars: Option<CharsElement>,
                             kernings: Option<seq<Element>>)

  /** XMLElement::GetU32 on an attribute holding `GetI32`'s value. */
  function GetU32(e: Option<Element>, name: string): (r: nat)
    ensures r < U32_LIMIT
  {
    ToU32(GetI32(e, name))
  }

  /** The <char> children a load visits; none when <chars> is absent. */
  function CharList(doc: FontDoc): seq<Element>
  {
    if doc.chars.Some? then doc.chars.value.chars else []
  }

  /** The <kerning> children a load visits; none when <kernings> is absent. */
  function KerningList(doc: FontDoc): seq<Element>
  {
    if doc.kernings.Some? then doc.kernings.value else []
  }

  /** A decoded page image and whether turning it into a texture succeeds. */
  datatype PageImage = PageImage(width: nat, height: nat, components: nat, textureOk: bool)

  /** A face texture: its resource name, size and format. */
  datatype FaceTexture = FaceTexture(name: string, width: nat, height: nat, format: TextureFormat)

  /** The image file of page `i`, looked up in the font's own directory. */
  function PagePath(fontPath: string, pages: seq<PageElement>, i: nat): string
    requires i < |pages|
  {
    fontPath + pages[i].file
  }

  /** Page `i` exists, its image file is found and decoded, and its texture is created. */
  predicate PageLoads(fontPath: string, pages: seq<PageElement>, files: map<string, PageImage>, i: nat)
  {
    i < |pages| && PagePath(fontPath, pages, i) in files && files[PagePath(fontPath, pages, i)].textureOk
  }

  /** The number of leading pages, out of the `count` requested, that load. */
  function LoadablePages(fontPath: string, pages: seq<PageElement>, files: map<string, PageImage>, count: nat): (n: nat)
    ensures n <= count
    ensures forall i: nat :: i < n ==> PageLoads(fontPath, pages, files, i)
    ensures n < count ==> !PageLoads(fontPath, pages, files, n)
  {
    if count == 0 then 0
    else
      var n := LoadablePages(fontPath, pages, files, count - 1);
      if n == count - 1 && PageLoads(fontPath, pages, files, n) then count else n
  }

  /** The texture made from page `i`, named after its image file. */
  function PageTexture(fontPath: string, pages: seq<PageElement>, files: map<string, PageImage>, i: nat): FaceTexture
    requires PageLoads(fontPath, pages, files, i)
  {
    var path := PagePath(fontPath, pages, i);
    FaceTexture(path, files[path].width, files[path].height, FormatOf(files[path].components))
  }

  /** The textures of the first `n` pages. */
  function PageTextures(fontPath: string, pages: seq<PageElement>, files: map<string, PageImage>, n: nat): (r: seq<FaceTexture>)
    requires forall i: nat :: i < n ==> PageLoads(fontPath, pages, files, i)
    ensures |r| == n
    ensures forall i: nat :: i < n ==> r[i] == PageTexture(fontPath, pages, files, i)
  {
    if n == 0 then [] else PageTextures(fontPath, pages, files, n - 1) + [PageTexture(fontPath, pages, files, n - 1)]
  }

  /** The image bytes of the first `n` pages (width times height times components each). */
  function PageBytes(fontPath: string, pages: seq<PageElement>, files: map<string, PageImage>, n: nat): nat
    requires forall i: nat :: i < n ==> PageLoads(fontPath, pages, files, i)
  {
    if n == 0 then 0
    else
      assert PageLoads(fontPath, pages, files, n - 1);
      var img := files[PagePath(fontPath, pages, n - 1)];
      PageBytes(fontPath, pages, files, n - 1) + img.width * img.height * img.components
  }

  // ---------------------------------------------------------------------------
  // Repacking the used glyphs

  /** What the area allocator answers for one glyph: a place on the current page, a place on a fresh page, or none. */
  datatype Answer = Fits(x: int, y: int) | NewPage(x: int, y: int) | NoFit

  /** The glyph table being built, the page count, and whether a glyph failed to fit. */
  datatype Packing = Packing(glyphs: map<nat, FontGlyph>, pages: nat, blocked: bool)

  /** A glyph moved to (`x`, `y`) on `page`, coordinates truncated to 16 bits. */
  function Placed(g: FontGlyph, x: int, y: int, page: int): FontGlyph
  {
    g.(x := Short(x), y := Short(y), page := page)
  }

  /**
   * The placement loop over the other face's glyphs in iteration order `order`, with the
   * allocator's answers: unused glyphs are skipped, a glyph that fits goes on the last page,
   * a glyph that needs a fresh page opens one, and one that fits nowhere stops the copy.
   */
  function Pack(glyphs: map<nat, FontGlyph>, order: seq<nat>, answers: seq<Answer>, placed: map<nat, FontGlyph>): (p: Packing)
    requires |answers| == |order| && forall k :: k in order ==> k in glyphs
    ensures p.pages >= 1
  {
    if order == [] then Packing(placed, 1, false)
    else
      var n := |order| - 1;
      assert forall j :: j in order[..n] ==> j in order;
      var p := Pack(glyphs, order[..n], answers[..n], placed);
      var g := glyphs[order[n]];
      if p.blocked || !g.used then p
      else match answers[n]
        case NoFit => p.(blocked := true)
        case Fits(x, y) => p.(glyphs := p.glyphs[order[n] := Placed(g, x, y, p.pages - 1)])
        case NewPage(x, y) => Packing(p.glyphs[order[n] := Placed(g, x, y, p.pages)], p.pages + 1, false)
  }

  /** The copy gives up exactly when some used glyph fits on neither the current nor a fresh page. */
  lemma {:induction false} PackBlocked(glyphs: map<nat, FontGlyph>, order: seq<nat>, answers: seq<Answer>,
                                       placed: map<nat, FontGlyph>)
    requires |answers| == |order| && forall k :: k in order ==> k in glyphs
    ensures Pack(glyphs, order, answers, placed).blocked <==>
            exists i :: 0 <= i < |order| && glyphs[order[i]].used && answers[i] == NoFit
    decreases |order|
  {
    if order != [] {
      var n := |order| - 1;
      assert forall j :: j in order[..n] ==> j in order;
      PackBlocked(glyphs, order[..n], answers[..n], placed);
      assert forall i :: 0 <= i < n ==> order[..n][i] == order[i] && answers[..n][i] == answers[i];
    }
  }

  /** Without a block, the new table holds the old entries plus every used glyph of `order`, and no unused one. */
  lemma {:induction false} PackKeys(glyphs: map<nat, FontGlyph>, order: seq<nat>, answers: seq<Answer>,
                                    placed: map<nat, FontGlyph>)
    requires |answers| == |order| && forall k :: k in order ==> k in glyphs
    requires !Pack(glyphs, order, answers, placed).blocked
    ensures forall k :: k in Pack(glyphs, order, answers, placed).glyphs <==> k in placed || (k in order && glyphs[k].used)
    decreases |order|
  {
    if order != [] {
      var n := |order| - 1;
      assert forall j :: j in order[..n] ==> j in order;
      assert forall j :: j in order ==> j in order[..n] || j == order[n];
      PackKeys(glyphs, order[..n], answers[..n], placed);
    }
  }

  /**
   * Without a block, every used glyph of `order` keeps its size, offsets, advance and use
   * mark, and lands on a page below the page count.
   */
  lemma {:induction false} PackPlacesUsed(glyphs: map<nat, FontGlyph>, order: seq<nat>, answers: seq<Answer>,
                                          placed: map<nat, FontGlyph>, k: nat)
    requires |answers| == |order| && forall k :: k in order ==> k in glyphs
    requires !Pack(glyphs, order, answers, placed).blocked
    requires k in order && glyphs[k].used
    ensures k in Pack(glyphs, order, answers, placed).glyphs
    ensures var g := Pack(glyphs, order, answers, placed).glyphs[k];
      g == Placed(glyphs[k], g.x, g.y, g.page) && 0 <= g.page < Pack(glyphs, order, answers, placed).pages
    decreases |order|
  {
    var n := |order| - 1;
    assert forall j :: j in order[..n] ==> j in order;
    var p := Pack(glyphs, order[..n], answers[..n], placed);
    if k != order[n] {
      assert k in order[..n];
      PackPlacesUsed(glyphs, order[..n], answers[..n], placed, k);
    }
  }

  /** The other face's kerning pairs among `keys` whose two characters both have glyphs in `glyphs`. */
  function KeptKerning(kerning: map<nat, int>, glyphs: map<nat, FontGlyph>, keys: set<nat>): (r: map<nat, int>)
    ensures forall k :: k in r <==> k in keys && k in kerning && KeyFirst(k) in glyphs && KeySecond(k) in glyphs
    ensures forall k :: k in r ==> r[k] == kerning[k]
  {
    map k | k in keys && k in kerning && KeyFirst(k) in glyphs && KeySecond(k) in glyphs :: kerning[k]
  }

  lemma KeptKerningInsert(kerning: map<nat, int>, glyphs: map<nat, FontGlyph>, keys: set<nat>, k: nat)
    requires k in kerning
    ensures KeptKerning(kerning, glyphs, keys + {k}) ==
      if KeyFirst(k) in glyphs && KeySecond(k) in glyphs
      then KeptKerning(kerning, glyphs, keys)[k := kerning[k]]
      else KeptKerning(kerning, glyphs, keys)
  {
  }

  /** The other face's table with a default glyph for every key it lacks (HashMap's operator[]). */
  function WithDefaults(glyphs: map<nat, FontGlyph>, keys: set<nat>): (r: map<nat, FontGlyph>)
    ensures r.Keys == glyphs.Keys + keys
    ensures forall k :: k in glyphs ==> r[k] == glyphs[k]
  {
    map k | k in glyphs.Keys + keys :: if k in glyphs then glyphs[k] else DefaultGlyph
  }

  /** One rectangle copy of the repacking: a glyph from an old page to its place on a new page. */
  datatype BlitCall = BlitCall(destPage: int, x: int, y: int, width: int, height: int,
                               sourcePage: int, sourceX: int, sourceY: int, components: nat)

  function GlyphBlit(newGlyph: FontGlyph, oldGlyph: FontGlyph, components: nat): BlitCall
  {
    BlitCall(newGlyph.page, newGlyph.x, newGlyph.y, newGlyph.width, newGlyph.height,
             oldGlyph.page, oldGlyph.x, oldGlyph.y, components)
  }

  /** The copies for the new table's glyphs in its iteration order `order`. */
  function GlyphBlits(newGlyphs: map<nat, FontGlyph>, oldGlyphs: map<nat, FontGlyph>, order: seq<nat>, components: nat)
    : (r: seq<BlitCall>)
    requires forall k :: k in order ==> k in newGlyphs && k in oldGlyphs
    ensures |r| == |order|
    ensures forall i :: 0 <= i < |order| ==> r[i] == GlyphBlit(newGlyphs[order[i]], oldGlyphs[order[i]], components)
  {
    if order == [] then []
    else
      var n := |order| - 1;
      assert forall j :: j in order[..n] ==> j in order;
      GlyphBlits(newGlyphs, oldGlyphs, order[..n], components) + [GlyphBlit(newGlyphs[order[n]], oldGlyphs[order[n]], components)]
  }

  /** The new pages: all of the maximum size except the last, which has the allocator's final size. */
  function NewPages(numPages: nat, maxSize: int, lastWidth: int, lastHeight: int, format: TextureFormat)
    : (r: seq<FaceTexture>)
    ensures |r| == numPages
    ensures forall i :: 0 <= i < numPages ==> r[i].format == format
  {
    seq(numPages, i requires 0 <= i < numPages =>
      if i == numPages - 1 then FaceTexture("", Clamped(lastWidth), Clamped(lastHeight), format)
      else FaceTexture("", Clamped(maxSize), Clamped(maxSize), format))
  }

  function Clamped(v: int): nat
  {
    if v < 0 then 0 else v
  }

  /** A known format survives saving a texture to an image and loading it back. */
  lemma FormatRoundTrip(f: TextureFormat)
    requires !f.FormatOther?
    ensures FormatOf(NumComponents(f)) == f
  {
  }

  lemma {:induction false} LoadablePagesAll(fontPath: string, pages: seq<PageElement>, files: map<string, PageImage>, n: nat)
    requires forall i: nat :: i < n ==> PageLoads(fontPath, pages, files, i)
    ensures LoadablePages(fontPath, pages, files, n) == n
  {
    if n > 0 {
      LoadablePagesAll(fontPath, pages, files, n - 1);
    }
  }

  /** The first page that does not load bounds the loadable prefix of any longer request. */
  lemma {:induction false} LoadablePagesStop(fontPath: string, pages: seq<PageElement>, files: map<string, PageImage>,
                                             i: nat, count: nat)
    requires i < count
    requires forall j: nat :: j < i ==> PageLoads(fontPath, pages, files, j)
    requires !PageLoads(fontPath, pages, files, i)
    ensures LoadablePages(fontPath, pages, files, count) == i
  {
    if count == i + 1 {
      LoadablePagesAll(fontPath, pages, files, i);
    } else {
      LoadablePagesStop(fontPath, pages, files, i, count - 1);
    }
  }

  /** The characters listed in an order. */
  function Listed(order: seq<nat>): set<nat>
  {
    set k | k in order
  }

  /** The characters of a prefix one longer are those of the prefix and the next one. */
  lemma PrefixKeysStep(order: seq<nat>, i: nat)
    requires i < |order|
    ensures Listed(order[..i + 1]) == Listed(order[..i]) + {order[i]}
  {
    assert order[..i + 1] == order[..i] + [order[i]];
  }

  lemma WithDefaultsInsert(glyphs: map<nat, FontGlyph>, keys: set<nat>, k: nat)
    ensures WithDefaults(glyphs, keys + {k}) ==
      if k in WithDefaults(glyphs, keys) then WithDefaults(glyphs, keys)
      else WithDefaults(glyphs, keys)[k := DefaultGlyph]
  {
  }

  /** The document Save writes for a face whose font file is called `fileName`. */
  function SavedDoc(fileName: string, pointSize: int, rowHeight: int, pageCount: nat,
                    glyphs: map<nat, FontGlyph>, order: seq<nat>, kerning: map<nat, int>, kerningOrder: seq<nat>): FontDoc
    requires forall k :: k in order ==> k in glyphs && k < U32_LIMIT
    requires forall k :: k in kerningOrder ==> k in kerning
  {
    FontDoc(fileName,
            Some(Element(map["size" := pointSize])),
            Some(Element(map["lineHeight" := rowHeight, "pages" := ToI32(ToU32(pageCount))])),
            Some(SavedPages(fileName, pageCount)),
            Some(CharsElement(ToI32(ToU32(|glyphs|)), CharElements(glyphs, order))),
            if |kerning| == 0 then None else Some(KerningElements(kerning, kerningOrder)))
  }

  /** The image file name of page `i`: the font's file name, `_`, the page number and `.png`. */
  function PageFileName(fileName: string, i: nat): string
  {
    fileName + "_" + NatToString(i) + ".png"
  }

  function SavedPages(fileName: string, pageCount: nat): (r: seq<PageElement>)
    ensures |r| == pageCount
  {
    seq(pageCount, i requires 0 <= i < pageCount => PageElement(ToI32(ToU32(i)), PageFileName(fileName, i)))
  }

  /** The paths the first `n` page images are written to, under `pathName`. */
  function PagePaths(pathName: string, fileName: string, n: nat): (r: seq<string>)
    ensures |r| == n && forall i :: 0 <= i < n ==> r[i] == pathName + PageFileName(fileName, i)
  {
    seq(n, i requires 0 <= i < n => pathName + PageFileName(fileName, i))
  }

  /** One more page appends its element. */
  lemma SavedPagesSnoc(fileName: string, i: nat)
    ensures SavedPages(fileName, i + 1) == SavedPages(fileName, i) + [PageElement(ToI32(ToU32(i)), PageFileName(fileName, i))]
  {
  }

  /** One more page appends its image path. */
  lemma PagePathsSnoc(pathName: string, fileName: string, i: nat)
    ensures PagePaths(pathName, fileName, i + 1) == PagePaths(pathName, fileName, i) + [pathName + PageFileName(fileName, i)]
  {
  }

  /** Where Save writes the page images: next to the destination file, else under Data/ beside the font. */
  function SaveDirectory(fontName: string, destName: Option<string>): string
  {
    if destName.Some? then FileSystem.GetPath(destName.value) else "Data/" + FileSystem.GetPath(fontName)
  }

  /** Loading what Save writes gives back the point size, the row height and the page count. */
  lemma SaveLoadHeader(fileName: string, pointSize: int, rowHeight: int, pageCount: nat,
                       glyphs: map<nat, FontGlyph>, order: seq<nat>, kerning: map<nat, int>, kerningOrder: seq<nat>)
    requires pageCount < U32_LIMIT
    requires forall k :: k in order ==> k in glyphs && k < U32_LIMIT
    requires forall k :: k in kerningOrder ==> k in kerning
    ensures var doc := SavedDoc(fileName, pointSize, rowHeight, pageCount, glyphs, order, kerning, kerningOrder);
      && doc.pages.Some? && |doc.pages.value| == pageCount
      && GetI32(doc.info, "size") == pointSize
      && GetI32(doc.common, "lineHeight") == rowHeight
      && GetU32(doc.common, "pages") == pageCount
  {
    I32RoundTrip(pageCount);
  }

  /** Loading what Save writes gives back the glyph table, with use marks cleared, and the kerning table. */
  lemma SaveLoadTables(fileName: string, pointSize: int, rowHeight: int, pageCount: nat,
                       glyphs: map<nat, FontGlyph>, order: seq<nat>, kerning: map<nat, int>, kerningOrder: seq<nat>)
    requires forall k :: k in glyphs <==> k in order
    requires forall k :: k in glyphs ==> k < U32_LIMIT && Representable(glyphs[k])
    requires forall k :: k in kerning <==> k in kerningOrder
    requires forall k :: k in kerning ==> k < U32_LIMIT && IsShort(kerning[k])
    ensures var doc := SavedDoc(fileName, pointSize, rowHeight, pageCount, glyphs, order, kerning, kerningOrder);
      && GlyphTable(map[], CharList(doc)) == Cleared(glyphs, glyphs.Keys)
      && KerningTable(map[], KerningList(doc)) == kerning
  {
    var doc := SavedDoc(fileName, pointSize, rowHeight, pageCount, glyphs, order, kerning, kerningOrder);
    assert CharList(doc) == CharElements(glyphs, order);
    GlyphTableRoundTrip(glyphs, order);
    if |kerning| == 0 {
      assert kerning == map[];
    } else {
      assert KerningList(doc) == KerningElements(kerning, kerningOrder);
      KerningTableRoundTrip(kerning, kerningOrder);
    }
  }

  // ---------------------------------------------------------------------------
  // The face

  /** A bitmap font face: point size, row height, glyph and kerning tables and page textures. */
  class FontFaceBitmap {
    /** The name of the font resource the face belongs to. */
    const fontName: string
    var pointSize: int
    var rowHeight: int
    var glyphMapping: map<nat, FontGlyph>
    var kerningMapping: map<nat, int>
    var textures: seq<FaceTexture>

    /** Character codes and kerning keys are 32-bit unsigned integers. */
    predicate Valid()
      reads this
    {
      && (forall k :: k in glyphMapping ==> k < U32_LIMIT)
      && (forall k :: k in kerningMapping ==> k < U32_LIMIT)
    }

    constructor(fontName: string)
      ensures this.fontName == fontName && pointSize == 0 && rowHeight == 0
      ensures glyphMapping == map[] && kerningMapping == map[] && textures == []
      ensures Valid()
    {
      this.fontName := fontName;
      pointSize := 0;
      rowHeight := 0;
      glyphMapping := map[];
      kerningMapping := map[];
      textures := [];
    }

    /** The page loop of Load: one texture per requested page, stopping at the first that fails. */
    method LoadPages(fontPath: string, pages: seq<PageElement>, count: nat, files: map<string, PageImage>)
      returns (ok: bool, textureBytes: nat)
      modifies this`textures
      ensures var n := LoadablePages(fontPath, pages, files, count);
        && textures == old(textures) + PageTextures(fontPath, pages, files, n)
        && (ok <==> n == count)
        && (ok ==> textureBytes == PageBytes(fontPath, pages, files, n) % U32_LIMIT)
    {
      ghost var t0 := textures;
      var total := 0;
      var i := 0;
      while i < count
        invariant i <= count
        invariant forall j: nat :: j < i ==> PageLoads(fontPath, pages, files, j)
        invariant textures == t0 + PageTextures(fontPath, pages, files, i)
        invariant total == PageBytes(fontPath, pages, files, i) % U32_LIMIT
      {
        if i >= |pages| {
          LoadablePagesStop(fontPath, pages, files, i, count);
          return false, 0;
        }
        var path := fontPath + pages[i].file;
        if path !in files || !files[path].textureOk {
          LoadablePagesStop(fontPath, pages, files, i, count);
          return false, 0;
        }
        var image := files[path];
        textures := textures + [FaceTexture(path, image.width, image.height, FormatOf(image.components))];
        ModAdd(PageBytes(fontPath, pages, files, i), image.width * image.height * image.components, U32_LIMIT);
        total := (total + image.width * image.height * image.components) % U32_LIMIT;
        i := i + 1;
      }
      LoadablePagesAll(fontPath, pages, files, count);
      return true, total;
    }

    /** The <char> loop of Load. */
    method LoadGlyphs(chars: seq<Element>)
      modifies this`glyphMapping
      ensures glyphMapping == GlyphTable(old(glyphMapping), chars)
    {
      ghost var m0 := glyphMapping;
      for i := 0 to |chars|
        invariant glyphMapping == GlyphTable(m0, chars[..i])
      {
        assert chars[..i + 1][..i] == chars[..i];
        glyphMapping := glyphMapping[CharCode(chars[i]) := GlyphOf(chars[i])];
      }
      assert chars[..|chars|] == chars;
    }

    /** The <kerning> loop of Load. */
    method LoadKernings(kernings: seq<Element>)
      modifies this`kerningMapping
      ensures kerningMapping == KerningTable(old(kerningMapping), kernings)
    {
      ghost var m0 := kerningMapping;
      for i := 0 to |kernings|
        invariant kerningMapping == KerningTable(m0, kernings[..i])
      {
        assert kernings[..i + 1][..i] == kernings[..i];
        kerningMapping := kerningMapping[KerningKeyOf(kernings[i]) := AmountOf(kernings[i])];
      }
      assert kernings[..|kernings|] == kernings;
    }

    /**
     * The state a load from `d` leaves, with the font's directory `fontPath` and the decoded
     * page images found under their paths in `files`: the point size (when <info> is
     * present), the row height, the textures of the pages that load, and on success (all
     * requested pages load) the glyph and kerning entries and the image byte count.
     */
    twostate predicate LoadedFrom(d: FontDoc, fontPath: string, files: map<string, PageImage>, ok: bool, textureBytes: nat)
      requires d.pages.Some?
      reads this
    {
      var count := GetU32(d.common, "pages");
      var n := LoadablePages(fontPath, d.pages.value, files, count);
      && pointSize == (if d.info.Some? then GetI32(d.info, "size") else old(pointSize))
      && rowHeight == GetI32(d.common, "lineHeight")
      && textures == old(textures) + PageTextures(fontPath, d.pages.value, files, n)
      && (ok <==> n == count)
      && glyphMapping == (if ok then GlyphTable(old(glyphMapping), CharList(d)) else old(glyphMapping))
      && kerningMapping == (if ok then KerningTable(old(kerningMapping), KerningList(d)) else old(kerningMapping))
      && (ok ==> textureBytes == PageBytes(fontPath, d.pages.value, files, n) % U32_LIMIT)
    }

    /**
     * Load from a font description (None when the data is not XML with a <font> root).
     * Returns whether the load succeeded and the image bytes to add to the font's memory use.
     */
    method LoadXml(doc: Option<FontDoc>, files: map<string, PageImage>) returns (ok: bool, textureBytes: nat)
      requires Valid()
      modifies this
      ensures Valid()
      ensures doc.None? || doc.value.pages.None? ==> !ok && unchanged(this)
      ensures doc.Some? && doc.value.pages.Some? ==>
        LoadedFrom(doc.value, FileSystem.GetPath(fontName), files, ok, textureBytes)
    {
      if doc.None? || doc.value.pages.None? {
        return false, 0;
      }
      var fontPath := FileSystem.GetPath(fontName);
      ok, textureBytes := LoadDoc(doc.value, fontPath, files);
    }

    method LoadDoc(d: FontDoc, fontPath: string, files: map<string, PageImage>) returns (ok: bool, textureBytes: nat)
      requires Valid() && d.pages.Some?
      modifies this
      ensures Valid()
      ensures LoadedFrom(d, fontPath, files, ok, textureBytes)
    {
      if d.info.Some? {
        pointSize := GetI32(d.info, "size");
      }
      rowHeight := GetI32(d.common, "lineHeight");
      var count := GetU32(d.common, "pages");
      ok, textureBytes := LoadPages(fontPath, d.pages.value, count, files);
      if !ok {
        return;
      }
      LoadGlyphs(CharList(d));
      LoadKernings(KerningList(d));
    }

    /**
     * Load(FontFace*, usedGlyphs): copy another face. From itself it changes nothing; without
     * `usedGlyphs` it shares the other face's tables and textures; with it, only the used
     * glyphs are repacked onto fresh pages. `order` is the other glyph table's iteration order
     * and `answers` the area allocator's answers along it; `blitOrder` is the iteration order
     * of the resulting glyph table; the allocator's page size limit and the final size of
     * its last page are parameters. Returns whether the copy succeeded and the rectangle
     * copies it made.
     */
    method Copy(other: FontFaceBitmap, usedGlyphs: bool, order: seq<nat>, answers: seq<Answer>,
                maxTextureSize: int, lastWidth: int, lastHeight: int, blitOrder: seq<nat>)
      returns (ok: bool, blits: seq<BlitCall>)
      requires Valid() && other.Valid()
      requires forall k :: k in order <==> k in other.glyphMapping
      requires |answers| == |order|
      requires usedGlyphs && this != other && !Pack(other.glyphMapping, order, answers, glyphMapping).blocked ==>
        && |other.textures| > 0
        && forall k :: k in blitOrder <==> k in Pack(other.glyphMapping, order, answers, glyphMapping).glyphs
      modifies this, other`glyphMapping
      ensures Valid()
      ensures this == other || !usedGlyphs ==> ok && blits == []
      ensures this == other ==> unchanged(this)
      ensures this != other && !usedGlyphs ==>
        && glyphMapping == other.glyphMapping && kerningMapping == other.kerningMapping
        && textures == other.textures && pointSize == other.pointSize && rowHeight == other.rowHeight
        && unchanged(other)
      ensures this != other && usedGlyphs ==>
        var p := Pack(old(other.glyphMapping), order, answers, old(glyphMapping));
        && pointSize == other.pointSize && rowHeight == other.rowHeight
        && glyphMapping == p.glyphs
        && (ok <==> !p.blocked)
        && (!ok ==> kerningMapping == old(kerningMapping) && textures == old(textures) && unchanged(other))
        && (ok ==>
             var components := NumComponents(old(other.textures[0]).format);
             && other.glyphMapping == WithDefaults(old(other.glyphMapping), p.glyphs.Keys)
             && blits == GlyphBlits(p.glyphs, other.glyphMapping, blitOrder, components)
             && textures == NewPages(p.pages, maxTextureSize, lastWidth, lastHeight, FormatOf(components))
             && kerningMapping == old(kerningMapping) + KeptKerning(old(other.kerningMapping), p.glyphs, old(other.kerningMapping).Keys))
    {
      if this == other {
        return true, [];
      }
      if !usedGlyphs {
        glyphMapping := other.glyphMapping;
        kerningMapping := other.kerningMapping;
        textures := other.textures;
        pointSize := other.pointSize;
        rowHeight := other.rowHeight;
        return true, [];
      }
      pointSize := other.pointSize;
      rowHeight := other.rowHeight;
      var numPages;
      ok, numPages := PlaceGlyphs(other.glyphMapping, order, answers);
      if !ok {
        return false, [];
      }
      var components := NumComponents(other.textures[0].format);
      blits := BlitGlyphs(other, blitOrder, components);
      textures := NewPages(numPages, maxTextureSize, lastWidth, lastHeight, FormatOf(components));
      KeepKerning(other.kerningMapping);
    }

    /** The placement loop of the copy. */
    method PlaceGlyphs(glyphs: map<nat, FontGlyph>, order: seq<nat>, answers: seq<Answer>)
      returns (ok: bool, numPages: nat)
      requires Valid()
      requires |answers| == |order| && forall k :: k in order ==> k in glyphs && k < U32_LIMIT
      modifies this`glyphMapping
      ensures Valid()
      ensures var p := Pack(glyphs, order, answers, old(glyphMapping));
        glyphMapping == p.glyphs && (ok <==> !p.blocked) && (ok ==> numPages == p.pages)
    {
      ghost var m0 := glyphMapping;
      numPages := 1;
      for i := 0 to |order|
        invariant Valid()
        invariant forall k :: k in order[..i] ==> k in glyphs
        invariant var p := Pack(glyphs, order[..i], answers[..i], m0);
          !p.blocked && glyphMapping == p.glyphs && numPages == p.pages
      {
        assert order[..i + 1][..i] == order[..i] && answers[..i + 1][..i] == answers[..i];
        assert order[..i + 1][i] == order[i] && answers[..i + 1][i] == answers[i];
        var g := glyphs[order[i]];
        if g.used {
          match answers[i]
          case Fits(x, y) =>
            glyphMapping := glyphMapping[order[i] := Placed(g, x, y, numPages - 1)];
          case NewPage(x, y) =>
            numPages := numPages + 1;
            glyphMapping := glyphMapping[order[i] := Placed(g, x, y, numPages - 1)];
          case NoFit =>
            assert Pack(glyphs, order[..i + 1], answers[..i + 1], m0).blocked;
            BlockedStays(glyphs, order, answers, m0, i + 1);
            return false, numPages;
        }
      }
      assert order[..|order|] == order && answers[..|answers|] == answers;
      return true, numPages;
    }

    /** The rectangle copy loop of the copy, over this face's glyphs in `blitOrder`. */
    method BlitGlyphs(other: FontFaceBitmap, blitOrder: seq<nat>, components: nat) returns (blits: seq<BlitCall>)
      requires other != this
      requires forall k :: k in blitOrder <==> k in glyphMapping
      modifies other`glyphMapping
      ensures other.glyphMapping == WithDefaults(old(other.glyphMapping), glyphMapping.Keys)
      ensures blits == GlyphBlits(glyphMapping, other.glyphMapping, blitOrder, components)
    {
      ghost var o0 := other.glyphMapping;
      ghost var full := WithDefaults(o0, glyphMapping.Keys);
      ghost var visited: set<nat> := {};
      blits := [];
      for i := 0 to |blitOrder|
        invariant visited == Listed(blitOrder[..i])
        invariant visited <= glyphMapping.Keys <= full.Keys
        invariant other.glyphMapping == WithDefaults(o0, visited)
        invariant blits == GlyphBlits(glyphMapping, full, blitOrder[..i], components)
      {
        var k := blitOrder[i];
        assert blitOrder[..i + 1][..i] == blitOrder[..i] && blitOrder[..i + 1][i] == k;
        PrefixKeysStep(blitOrder, i);
        var blit := BlitGlyph(other, k, components, o0, visited);
        visited := visited + {k};
        blits := blits + [blit];
      }
      assert visited == glyphMapping.Keys;
      assert blitOrder[..|blitOrder|] == blitOrder;
    }

    /** One pass of the glyph loop: give glyph `k` a default in `other` if it has none, and copy it. */
    method BlitGlyph(other: FontFaceBitmap, k: nat, components: nat, ghost o0: map<nat, FontGlyph>, ghost visited: set<nat>)
      returns (blit: BlitCall)
      requires other != this && k in glyphMapping && visited <= glyphMapping.Keys
      requires other.glyphMapping == WithDefaults(o0, visited)
      modifies other`glyphMapping
      ensures other.glyphMapping == WithDefaults(o0, visited + {k})
      ensures blit == GlyphBlit(glyphMapping[k], WithDefaults(o0, glyphMapping.Keys)[k], components)
    {
      WithDefaultsInsert(o0, visited, k);
      if k !in other.glyphMapping {
        other.glyphMapping := other.glyphMapping[k := DefaultGlyph];
      }
      blit := GlyphBlit(glyphMapping[k], other.glyphMapping[k], components);
    }

    /** The kerning loop of the copy: keep the pairs whose two characters both have glyphs now. */
    method KeepKerning(kerning: map<nat, int>)
      requires Valid() && forall k :: k in kerning ==> k < U32_LIMIT
      modifies this`kerningMapping
      ensures Valid()
      ensures kerningMapping == old(kerningMapping) + KeptKerning(kerning, glyphMapping, kerning.Keys)
    {
      ghost var m0 := kerningMapping;
      var todo := kerning.Keys;
      ghost var done: set<nat> := {};
      while todo != {}
        invariant todo + done == kerning.Keys && todo !! done
        invariant Valid()
        invariant kerningMapping == m0 + KeptKerning(kerning, glyphMapping, done)
        decreases todo
      {
        var k :| k in todo;
        KeepPair(kerning, k, m0, done);
        todo := todo - {k};
        done := done + {k};
      }
    }

    /** One pair of the kerning loop: kept when both its characters have glyphs. */
    method KeepPair(kerning: map<nat, int>, k: nat, ghost m0: map<nat, int>, ghost done: set<nat>)
      requires Valid() && k in kerning && k < U32_LIMIT
      requires kerningMapping == m0 + KeptKerning(kerning, glyphMapping, done)
      modifies this`kerningMapping
      ensures Valid()
      ensures kerningMapping == m0 + KeptKerning(kerning, glyphMapping, done + {k})
    {
      KeptKerningInsert(kerning, glyphMapping, done, k);
      if KeyFirst(k) in glyphMapping && KeySecond(k) in glyphMapping {
        kerningMapping := kerningMapping[k := kerning[k]];
        assert kerningMapping == m0 + KeptKerning(kerning, glyphMapping, done)[k := kerning[k]];
      }
    }

    /**
     * Save: the font description for point size `pointSize`, with the glyph and kerning
     * tables in their iteration orders, and the paths the page images are written to
     * (`destName` is the destination file's name when saving to a file).
     */
    method Save(pointSize: int, destName: Option<string>, order: seq<nat>, kerningOrder: seq<nat>)
      returns (doc: FontDoc, pngPaths: seq<string>)
      requires Valid()
      requires forall k :: k in glyphMapping <==> k in order
      requires forall k :: k in kerningMapping <==> k in kerningOrder
      ensures doc == SavedDoc(FileSystem.GetFileName(fontName), pointSize, rowHeight, |textures|,
                              glyphMapping, order, kerningMapping, kerningOrder)
      ensures |pngPaths| == |textures|
      ensures forall i :: 0 <= i < |textures| ==>
        pngPaths[i] == SaveDirectory(fontName, destName) + PageFileName(FileSystem.GetFileName(fontName), i)
    {
      var fileName := FileSystem.GetFileName(fontName);
      var pathName := if destName.Some? then FileSystem.GetPath(destName.value) else "Data/" + FileSystem.GetPath(fontName);
      var pages;
      pages, pngPaths := SavePages(fileName, pathName, |textures|);
      var chars := SaveChars(glyphMapping, order);
      var kernings: Option<seq<Element>> := None;
      if |kerningMapping| != 0 {
        var list := SaveKernings(kerningMapping, kerningOrder);
        kernings := Some(list);
      }
      doc := FontDoc(fileName,
                     Some(Element(map["size" := pointSize])),
                     Some(Element(map["lineHeight" := rowHeight, "pages" := ToI32(ToU32(|textures|))])),
                     Some(pages),
                     Some(CharsElement(ToI32(ToU32(|glyphMapping|)), chars)),
                     kernings);
    }
  }

  /** The page loop of Save: a <page> element per texture and the path its image is written to. */
  method SavePages(fileName: string, pathName: string, count: nat) returns (pages: seq<PageElement>, pngPaths: seq<string>)
    ensures pages == SavedPages(fileName, count)
    ensures pngPaths == PagePaths(pathName, fileName, count)
  {
    pages := [];
    pngPaths := [];
    for i := 0 to count
      invariant pages == SavedPages(fileName, i)
      invariant pngPaths == PagePaths(pathName, fileName, i)
    {
      var texFileName := PageFileName(fileName, i);
      SavedPagesSnoc(fileName, i);
      PagePathsSnoc(pathName, fileName, i);
      pages := pages + [PageElement(ToI32(ToU32(i)), texFileName)];
      pngPaths := pngPaths + [pathName + texFileName];
    }
  }

  /** The <char> loop of Save. */
  method SaveChars(glyphs: map<nat, FontGlyph>, order: seq<nat>) returns (chars: seq<Element>)
    requires forall k :: k in order ==> k in glyphs && k < U32_LIMIT
    ensures chars == CharElements(glyphs, order)
  {
    chars := [];
    for i := 0 to |order|
      invariant forall k :: k in order[..i] ==> k in order
      invariant chars == CharElements(glyphs, order[..i])
    {
      assert order[..i + 1][..i] == order[..i];
      chars := chars + [CharElement(order[i], glyphs[order[i]])];
    }
    assert order[..|order|] == order;
  }

  /** The <kerning> loop of Save. */
  method SaveKernings(kerning: map<nat, int>, order: seq<nat>) returns (list: seq<Element>)
    requires forall k :: k in order ==> k in kerning
    ensures list == KerningElements(kerning, order)
  {
    list := [];
    for i := 0 to |order|
      invariant forall k :: k in order[..i] ==> k in order
      invariant list == KerningElements(kerning, order[..i])
    {
      assert order[..i + 1][..i] == order[..i];
      list := list + [KerningElement(order[i], kerning[order[i]])];
    }
    assert order[..|order|] == order;
  }

  /** Once the placement is blocked, further glyphs do not unblock it. */
  lemma {:induction false} BlockedStays(glyphs: map<nat, FontGlyph>, order: seq<nat>, answers: seq<Answer>,
                                        placed: map<nat, FontGlyph>, i: nat)
    requires |answers| == |order| && forall k :: k in order ==> k in glyphs
    requires i <= |order|
    requires forall k :: k in order[..i] ==> k in glyphs
    requires Pack(glyphs, order[..i], answers[..i], placed).blocked
    ensures Pack(glyphs, order, answers, placed) == Pack(glyphs, order[..i], answers[..i], placed)
    decreases |order| - i
  {
    if i < |order| {
      assert order[..i + 1][..i] == order[..i] && answers[..i + 1][..i] == answers[..i];
      assert forall k :: k in order[..i + 1] ==> k in glyphs;
      BlockedStays(glyphs, order, answers, placed, i + 1);
    } else {
      assert order[..i] == order && answers[..i] == answers;
    }
  }
}
