/** Pictures as the display driver means them: a solid colour or a glyph of a font
    (demo/st7789/ascii_fonts.h), one pixel at a time. */
module St7789Glyph {
  import opened CTypes

  /** Two bytes in the order the panel receives them. */
  datatype Pixel = Pixel(first: Byte, second: Byte)

  /** The font record; the driver computes the bytes per row itself and ignores the stored count. */
  datatype Font = Font(width: Byte, height: Byte, order: Byte, bytes: Byte, data: seq<bv8>)

  function RowBytes(width: Byte): nat { (width + 7) / 8 }

  function GlyphBytes(font: Font): nat { font.height * RowBytes(font.width) }

  /** The table holds the glyph of ch. */
  predicate HasGlyph(font: Font, ch: int) {
    32 <= ch && (ch - 32 + 1) * GlyphBytes(font) <= |font.data|
  }

  // ---- the table is cut into glyphs, and a glyph into rows

  /** The n-th piece of size elements. */
  function Chunk<T>(data: seq<T>, n: nat, size: nat): (c: seq<T>)
    requires (n + 1) * size <= |data|
    ensures |c| == size
    decreases n
  {
    assert (n + 1) * size == n * size + size && n * size >= 0;
    if n == 0 then data[..size] else Chunk(data[size..], n - 1, size)
  }

  /** The pieces lie one behind the other: what follows n pieces is the n-th. */
  lemma {:induction false} ChunkBetween<T>(before: seq<T>, c: seq<T>, after: seq<T>, n: nat)
    requires |before| == n * |c|
    ensures (n + 1) * |c| == |before| + |c|
    ensures Chunk(before + c + after, n, |c|) == c
    decreases n
  {
    var data, size := before + c + after, |c|;
    assert (n + 1) * size == n * size + size;
    if n == 0 {
      assert data[..size] == c;
    } else {
      assert n * size == (n - 1) * size + size && (n - 1) * size >= 0;
      assert data[size..] == before[size..] + c + after;
      ChunkBetween(before[size..], c, after, n - 1);
    }
  }

  lemma ChunkAt<T>(data: seq<T>, n: nat, size: nat, k: nat)
    requires (n + 1) * size <= |data| && k < size
    ensures n * size + k < |data| && Chunk(data, n, size)[k] == data[n * size + k]
  {
    assert (n + 1) * size == n * size + size && n * size >= 0;
    var before, c, after := data[..n * size], data[n * size..n * size + size], data[n * size + size..];
    assert data == before + c + after;
    ChunkBetween(before, c, after, n);
  }

  lemma RowsFit(font: Font, row: nat)
    requires row < font.height
    ensures (row + 1) * RowBytes(font.width) <= GlyphBytes(font)
  {
    hide RowBytes;
    var d, b := font.height - row - 1, RowBytes(font.width);
    assert font.height * b == (row + 1) * b + d * b;
  }

  /** One row of the glyph of ch. */
  function RowOf(font: Font, ch: int, row: nat): (r: seq<bv8>)
    requires HasGlyph(font, ch) && row < font.height
    ensures |r| == RowBytes(font.width)
  {
    RowsFit(font, row);
    Chunk(Chunk(font.data, ch - 32, GlyphBytes(font)), row, RowBytes(font.width))
  }

  /** Where the driver finds byte j of that row. */
  lemma RowInTable(font: Font, ch: int, row: nat, j: nat)
    requires HasGlyph(font, ch) && row < font.height && j < RowBytes(font.width)
    ensures var i := ((ch - 32) * font.height + row) * RowBytes(font.width) + j;
      0 <= i < |font.data| && font.data[i] == RowOf(font, ch, row)[j]
  {
    RowsFit(font, row);
    hide RowBytes, Chunk;
    var n, b, size := ch - 32, RowBytes(font.width), GlyphBytes(font);
    ChunkInChunk(font.data, n, size, row, b, j);
    Regroup(n, font.height, row, b);
  }

  lemma ChunkInChunk<T>(data: seq<T>, n: nat, size: nat, m: nat, part: nat, k: nat)
    requires (n + 1) * size <= |data| && (m + 1) * part <= size && k < part
    ensures 0 <= n * size + m * part + k < |data|
    ensures Chunk(Chunk(data, n, size), m, part)[k] == data[n * size + m * part + k]
  {
    var at := m * part;
    assert (m + 1) * part == at + part && at >= 0;
    ChunkAt(data, n, size, at + k);
    ChunkAt(Chunk(data, n, size), m, part, k);
  }

  lemma Regroup(n: int, h: int, row: int, b: int)
    ensures (n * h + row) * b == n * (h * b) + row * b
  {
    var m := n * h;
    assert (m + row) * b == m * b + row * b;
    assert m * b == n * (h * b);
  }

  function Bit(b: bv8, i: nat): bool
    requires i < 8
  {
    (b >> i) & 1 == 1
  }

  /** Fonts of order 0 keep the leftmost pixel in the top bit of a byte, the others in the bottom bit. */
  function GlyphBit(font: Font, ch: int, row: nat, col: nat): bool
    requires HasGlyph(font, ch) && row < font.height && col < font.width
  {
    var b := RowOf(font, ch, row)[col / 8];
    if font.order == 0 then Bit(b, 7 - col % 8) else Bit(b, col % 8)
  }

  /** The glyphs of the characters from the space on lie one behind the other in the table, each of height rows of
      ceil(width / 8) bytes: whatever glyph follows those of the ch - 32 characters before ch is the one of ch. */
  lemma GlyphIsBlock(font: Font, ch: int, before: seq<bv8>, glyph: seq<bv8>, after: seq<bv8>, row: nat, col: nat)
    requires font.data == before + glyph + after && 32 <= ch && row < font.height && col < font.width
    requires |glyph| == font.height * ((font.width + 7) / 8) && |before| == (ch - 32) * |glyph|
    ensures HasGlyph(font, ch)
    ensures var i := row * ((font.width + 7) / 8) + col / 8;
      && 0 <= i < |glyph|
      && (GlyphBit(font, ch, row, col) <==> (glyph[i] >> (if font.order == 0 then 7 - col % 8 else col % 8)) & 1 == 1)
  {
    RowOfBlock(font, ch, before, glyph, after, row, col / 8);
    hide HasGlyph, RowOf;
  }

  lemma RowOfBlock(font: Font, ch: int, before: seq<bv8>, glyph: seq<bv8>, after: seq<bv8>, row: nat, j: nat)
    requires font.data == before + glyph + after && 32 <= ch && row < font.height && j < RowBytes(font.width)
    requires |glyph| == GlyphBytes(font) && |before| == (ch - 32) * |glyph|
    ensures HasGlyph(font, ch)
    ensures var i := row * RowBytes(font.width) + j;
      0 <= i < |glyph| && RowOf(font, ch, row)[j] == glyph[i]
  {
    RowsFit(font, row);
    hide RowBytes, GlyphBytes, Chunk;
    ChunkBetween(before, glyph, after, ch - 32);
    ChunkAt(glyph, row, RowBytes(font.width), j);
  }

  /** The pixel shows the bit of that row and column in the (ch - 32)-th block of the table. */
  ghost predicate ShowsBit(px: Pixel, font: Font, ch: int, fg: Pixel, bg: Pixel, row: nat, col: nat) {
    var b := (font.width + 7) / 8;
    var at := (ch - 32) * (font.height * b) + row * b + col / 8;
    && 0 <= at < |font.data|
    && px == if Bit(font.data[at], if font.order == 0 then 7 - col % 8 else col % 8) then fg else bg
  }

  /** So do all pixels of the box, in row-major order. */
  ghost predicate ShowsGlyph(ps: seq<Pixel>, font: Font, ch: int, fg: Pixel, bg: Pixel) {
    && |ps| == font.height * font.width
    && forall row: nat, col: nat | row < font.height && col < font.width :: ShowsPlace(ps, font, ch, fg, bg, row, col)
  }

  ghost predicate ShowsPlace(ps: seq<Pixel>, font: Font, ch: int, fg: Pixel, bg: Pixel, row: nat, col: nat) {
    var i := row * font.width + col;
    0 <= i < |ps| && ShowsBit(ps[i], font, ch, fg, bg, row, col)
  }

  datatype Picture =
    | Solid(px: Pixel)
    | Glyph(font: Font, ch: int, fg: Pixel, bg: Pixel)

  predicate Covers(pic: Picture, w: nat, h: nat) {
    pic.Glyph? ==> pic.font.width == w && pic.font.height == h && HasGlyph(pic.font, pic.ch)
  }

  function PixelAt(pic: Picture, w: nat, h: nat, row: nat, col: nat): Pixel
    requires Covers(pic, w, h) && row < h && col < w
  {
    match pic
    case Solid(px) => px
    case Glyph(font, ch, fg, bg) => if GlyphBit(font, ch, row, col) then fg else bg
  }

  // ---- the driver's two bit tests

  lemma TopBitTest(b: bv8, k: nat)
    requires k < 8
    ensures (b << k) & 0x80 != 0 <==> Bit(b, 7 - k)
  {
  }

  lemma BottomBitTest(b: bv8, k: nat)
    requires k < 8
    ensures b & (1 << k) != 0 <==> Bit(b, k)
  {
  }
}
