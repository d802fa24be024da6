/** The display as seen from the other end of the wire: a small ST7789 automaton over
    (D/C level, byte) that understands CASET (0x2A), RASET (0x2B) and RAMWR (0x2C). */
module St7789Panel {
  import opened CTypes
  import opened St7789Glyph
  import CB = CircBuffer

  datatype WireByte = Cmd(b: Byte) | Data(b: Byte)

  type Frame = map<(int, int), Pixel>

  datatype Mode =
    | Other
    | Columns(params: seq<Byte>)
    | Rows(params: seq<Byte>)
    | Write(x: nat, y: nat, half: Option<Byte>)

  datatype Panel = Panel(fb: Frame, x1: nat, x2: nat, y1: nat, y2: nat, mode: Mode)

  function Word(hi: Byte, lo: Byte): nat { 256 * hi + lo }

  /** A pixel outside the visible frame is lost. */
  function Put(fb: Frame, x: int, y: int, px: Pixel): Frame {
    if (x, y) in fb then fb[(x, y) := px] else fb
  }

  /** Row-major order, back to the first corner after the last pixel of the window. */
  function NextMode(p: Panel, x: nat, y: nat): Mode {
    if x < p.x2 then Write(x + 1, y, None)
    else if y < p.y2 then Write(p.x1, y + 1, None)
    else Write(p.x1, p.y1, None)
  }

  function Step(p: Panel, w: WireByte): Panel {
    match w
    case Cmd(0x2A) => p.(mode := Columns([]))
    case Cmd(0x2B) => p.(mode := Rows([]))
    case Cmd(0x2C) => p.(mode := Write(p.x1, p.y1, None))
    case Cmd(_) => p.(mode := Other)
    case Data(b) =>
      match p.mode
      case Other => p
      case Columns(ps) =>
        if |ps| == 3 then p.(x1 := Word(ps[0], ps[1]), x2 := Word(ps[2], b), mode := Other)
        else p.(mode := Columns(ps + [b]))
      case Rows(ps) =>
        if |ps| == 3 then p.(y1 := Word(ps[0], ps[1]), y2 := Word(ps[2], b), mode := Other)
        else p.(mode := Rows(ps + [b]))
      case Write(x, y, None) => p.(mode := Write(x, y, Some(b)))
      case Write(x, y, Some(hi)) =>
        p.(fb := Put(p.fb, x, y, Pixel(hi, b)), mode := NextMode(p, x, y))
  }

  function Feed(p: Panel, ws: seq<WireByte>): Panel {
    if ws == [] then p else Step(Feed(p, ws[..|ws| - 1]), ws[|ws| - 1])
  }

  lemma {:induction false} FeedAppend(p: Panel, a: seq<WireByte>, b: seq<WireByte>)
    ensures Feed(p, a + b) == Feed(Feed(p, a), b)
  {
    if b == [] {
      assert a + b == a;
    } else {
      FeedAppend(p, a, b[..|b| - 1]);
      assert (a + b)[..|a + b| - 1] == a + b[..|b| - 1];
    }
  }

  lemma FeedOne(p: Panel, a: seq<WireByte>, w: WireByte)
    ensures Feed(p, a + [w]) == Step(Feed(p, a), w)
  {
    assert (a + [w])[..|a|] == a;
  }

  // ---- addressing

  function Address(cmd: Byte, from: U16, to: U16): seq<WireByte> {
    [Cmd(cmd), Data(from / 256), Data(from % 256), Data(to / 256), Data(to % 256)]
  }

  /** What ST7789_SetAddrWindow puts on the wire. */
  function Window(x1: U16, y1: U16, x2: U16, y2: U16): seq<WireByte> {
    Address(0x2A, x1, x2) + Address(0x2B, y1, y2) + [Cmd(0x2C)]
  }

  lemma FeedFive(p: Panel, a: WireByte, b: WireByte, c: WireByte, d: WireByte, e: WireByte)
    ensures Feed(p, [a, b, c, d, e]) == Step(Step(Step(Step(Step(p, a), b), c), d), e)
  {
    FeedOne(p, [], a);
    assert [] + [a] == [a];
    FeedOne(p, [a], b);
    FeedOne(p, [a, b], c);
    FeedOne(p, [a, b, c], d);
    FeedOne(p, [a, b, c, d], e);
    assert [a] + [b] == [a, b] && [a, b] + [c] == [a, b, c];
    assert [a, b, c] + [d] == [a, b, c, d] && [a, b, c, d] + [e] == [a, b, c, d, e];
  }

  lemma FeedWindow(p: Panel, x1: U16, y1: U16, x2: U16, y2: U16)
    ensures Feed(p, Window(x1, y1, x2, y2)) == Panel(p.fb, x1, x2, y1, y2, Write(x1, y1, None))
  {
    var q := Feed(p, Address(0x2A, x1, x2));
    FeedFive(p, Cmd(0x2A), Data(x1 / 256), Data(x1 % 256), Data(x2 / 256), Data(x2 % 256));
    FeedColumns(p, x1, x2);
    var r := Feed(q, Address(0x2B, y1, y2));
    FeedFive(q, Cmd(0x2B), Data(y1 / 256), Data(y1 % 256), Data(y2 / 256), Data(y2 % 256));
    FeedRows(q, y1, y2);
    FeedAppend(p, Address(0x2A, x1, x2), Address(0x2B, y1, y2));
    FeedOne(p, Address(0x2A, x1, x2) + Address(0x2B, y1, y2), Cmd(0x2C));
  }

  lemma FeedColumns(p: Panel, x1: U16, x2: U16)
    ensures Step(Step(Step(Step(Step(p, Cmd(0x2A)), Data(x1 / 256)), Data(x1 % 256)), Data(x2 / 256)), Data(x2 % 256))
         == p.(x1 := x1, x2 := x2, mode := Other)
  {
    assert [] + [x1 / 256] == [x1 / 256] && [x1 / 256] + [x1 % 256] == [x1 / 256, x1 % 256];
  }

  lemma FeedRows(p: Panel, y1: U16, y2: U16)
    ensures Step(Step(Step(Step(Step(p, Cmd(0x2B)), Data(y1 / 256)), Data(y1 % 256)), Data(y2 / 256)), Data(y2 % 256))
         == p.(y1 := y1, y2 := y2, mode := Other)
  {
    assert [] + [y1 / 256] == [y1 / 256] && [y1 / 256] + [y1 % 256] == [y1 / 256, y1 % 256];
  }

  // ---- pixels

  function Tag(data: bool, bytes: seq<Byte>): seq<WireByte> {
    seq(|bytes|, i requires 0 <= i < |bytes| => if data then Data(bytes[i]) else Cmd(bytes[i]))
  }

  function PixelBytes(ps: seq<Pixel>): seq<Byte> {
    if ps == [] then [] else PixelBytes(ps[..|ps| - 1]) + [ps[|ps| - 1].first, ps[|ps| - 1].second]
  }

  function Pixels(ps: seq<Pixel>): seq<WireByte> { Tag(true, PixelBytes(ps)) }

  lemma TagAppend(data: bool, a: seq<Byte>, b: seq<Byte>)
    ensures Tag(data, a + b) == Tag(data, a) + Tag(data, b)
  {
  }

  lemma OnePixelBytes(ps: seq<Pixel>, px: Pixel)
    ensures PixelBytes(ps + [px]) == PixelBytes(ps) + [px.first, px.second]
  {
    assert (ps + [px])[..|ps|] == ps;
  }

  lemma NoBytes()
    ensures PixelBytes([]) == []
  {
  }

  lemma {:induction false} PixelBytesAppend(a: seq<Pixel>, b: seq<Pixel>)
    ensures PixelBytes(a + b) == PixelBytes(a) + PixelBytes(b)
  {
    hide PixelBytes;
    if b == [] {
      NoBytes();
      assert a + b == a;
    } else {
      var front, px := b[..|b| - 1], b[|b| - 1];
      PixelBytesAppend(a, front);
      assert b == front + [px] && a + b == a + front + [px];
      OnePixelBytes(front, px);
      OnePixelBytes(a + front, px);
    }
  }

  lemma PixelsAppend(a: seq<Pixel>, b: seq<Pixel>)
    ensures Pixels(a + b) == Pixels(a) + Pixels(b)
  {
    PixelBytesAppend(a, b);
    TagAppend(true, PixelBytes(a), PixelBytes(b));
  }

  lemma FeedPixel(p: Panel, px: Pixel)
    requires p.mode.Write? && p.mode.half == None
    ensures Feed(p, Pixels([px])) == p.(fb := Put(p.fb, p.mode.x, p.mode.y, px), mode := NextMode(p, p.mode.x, p.mode.y))
  {
    var a, b := Data(px.first), Data(px.second);
    assert PixelBytes([px]) == [] + [px.first, px.second] == [px.first, px.second];
    assert Pixels([px]) == [a] + [b];
    FeedOne(p, [a], b);
    FeedOne(p, [], a);
    assert [] + [a] == [a];
  }

  /** Pixels of a picture, row by row: the first n of a row, and the first h rows. */
  function RowPixels(pic: Picture, w: nat, h: nat, row: nat, n: nat): (ps: seq<Pixel>)
    requires Covers(pic, w, h) && row < h && n <= w
    ensures |ps| == n
  {
    seq(n, c requires 0 <= c < n => PixelAt(pic, w, h, row, c))
  }

  function BoxPixels(pic: Picture, w: nat, h: nat, rows: nat): seq<Pixel>
    requires Covers(pic, w, h) && rows <= h
  {
    if rows == 0 then [] else BoxPixels(pic, w, h, rows - 1) + RowPixels(pic, w, h, rows - 1, w)
  }

  lemma RowPixelsSnoc(pic: Picture, w: nat, h: nat, row: nat, n: nat)
    requires Covers(pic, w, h) && row < h && n < w
    ensures RowPixels(pic, w, h, row, n + 1) == RowPixels(pic, w, h, row, n) + [PixelAt(pic, w, h, row, n)]
  {
  }

  predicate InBox(k: (int, int), x: int, y: int, w: nat, h: nat) {
    x <= k.0 < x + w && y <= k.1 < y + h
  }

  // ---- any stream of pixels into a window

  ghost predicate Open(p: Panel, w: nat, h: nat) {
    w >= 1 && h >= 1 && p.x2 == p.x1 + w - 1 && p.y2 == p.y1 + h - 1 && p.mode == Write(p.x1, p.y1, None)
  }

  /** The row-major number of a place in the box at (x, y). */
  function Place(k: (int, int), x: int, y: int, w: nat): int { (k.1 - y) * w + (k.0 - x) }

  /** What a window of `size` places shows at place i after the pixels ps, which go round and round. */
  function Shown(ps: seq<Pixel>, size: nat, i: int): Option<Pixel>
    requires size >= 1
  {
    if ps == [] then None
    else if (|ps| - 1) % size == i then Some(ps[|ps| - 1])
    else Shown(ps[..|ps| - 1], size, i)
  }

  function Size(w: nat, h: nat): (n: nat)
    requires w >= 1 && h >= 1
    ensures n >= 1
  {
    CB.Scale(w, h);
    w * h
  }

  /** The frame after the pixels ps were written into the window. */
  function Streamed(fb: Frame, x: int, y: int, w: nat, h: nat, ps: seq<Pixel>): Frame
    requires w >= 1 && h >= 1
  {
    map k | k in fb ::
      if InBox(k, x, y, w, h) && Shown(ps, Size(w, h), Place(k, x, y, w)).Some?
      then Shown(ps, Size(w, h), Place(k, x, y, w)).value else fb[k]
  }

  /** Where the write pointer is after n pixels. */
  function Cursor(p: Panel, w: nat, h: nat, n: nat): Mode
    requires w >= 1 && h >= 1
  {
    var m := n % Size(w, h);
    Write(p.x1 + m % w, p.y1 + m / w, None)
  }

  lemma PlaceIs(k: (int, int), x: int, y: int, w: nat, h: nat, m: nat)
    requires w >= 1 && InBox(k, x, y, w, h)
    ensures Place(k, x, y, w) == m <==> k == (x + m % w, y + m / w)
  {
    assert (m / w) * w + m % w == m;
    if Place(k, x, y, w) == m {
      CB.DivModUnique(m, w, k.1 - y, k.0 - x);
    }
  }

  lemma PlaceInBox(x: int, y: int, w: nat, h: nat, m: nat)
    requires w >= 1 && h >= 1 && m < Size(w, h)
    ensures InBox((x + m % w, y + m / w), x, y, w, h)
  {
    assert m < h * w;
    CharIndex(h, w, m);
  }

  lemma NextPlace(w: nat, h: nat, n: nat)
    requires w >= 1 && h >= 1
    ensures var m := n % Size(w, h);
            (n + 1) % Size(w, h) == if m + 1 < Size(w, h) then m + 1 else 0
  {
    var a := Size(w, h);
    var q, m := n / a, n % a;
    assert n == q * a + m;
    if m + 1 < a {
      CB.DivModUnique(n + 1, a, q, m + 1);
    } else {
      assert (q + 1) * a == q * a + a;
      CB.DivModUnique(n + 1, a, q + 1, 0);
    }
  }

  /** The window's corner-to-corner order is the row-major numbering. */
  lemma NextCell(w: nat, h: nat, m: nat)
    requires w >= 1 && h >= 1 && m < Size(w, h)
    ensures m / w < h && m % w < w
    ensures m + 1 < Size(w, h) <==> m % w < w - 1 || m / w < h - 1
    ensures m % w < w - 1 ==> (m + 1) % w == m % w + 1 && (m + 1) / w == m / w
    ensures m % w == w - 1 ==> (m + 1) % w == 0 && (m + 1) / w == m / w + 1
  {
    var q, r := m / w, m % w;
    assert m < h * w == w * h;
    CharIndex(h, w, m);
    assert m == q * w + r;
    if r < w - 1 {
      CB.DivModUnique(m + 1, w, q, r + 1);
      assert (h - q) * w == h * w - q * w;
      CB.Scale(h - q, w);
    } else {
      assert (q + 1) * w == q * w + w;
      CB.DivModUnique(m + 1, w, q + 1, 0);
      assert (h - q - 1) * w == h * w - q * w - w;
      if q < h - 1 {
        CB.Scale(h - q - 1, w);
      }
    }
  }

  lemma CursorMoves(p: Panel, q: Panel, w: nat, h: nat, n: nat)
    requires Open(p, w, h) && q == p.(fb := q.fb, mode := Cursor(p, w, h, n))
    ensures NextMode(q, q.mode.x, q.mode.y) == Cursor(p, w, h, n + 1)
  {
    hide Size;
    var m := n % Size(w, h);
    NextPlace(w, h, n);
    NextCell(w, h, m);
    if m + 1 == Size(w, h) {
      assert 0 % w == 0 && 0 / w == 0;
    }
  }

  lemma PutMore(fb: Frame, x: int, y: int, w: nat, h: nat, ps: seq<Pixel>, px: Pixel)
    requires w >= 1 && h >= 1
    ensures var m := |ps| % Size(w, h);
            Put(Streamed(fb, x, y, w, h, ps), x + m % w, y + m / w, px) == Streamed(fb, x, y, w, h, ps + [px])
  {
    var a := Size(w, h);
    var m := |ps| % a;
    assert (ps + [px])[..|ps|] == ps;
    PlaceInBox(x, y, w, h, m);
    var l := Put(Streamed(fb, x, y, w, h, ps), x + m % w, y + m / w, px);
    var r := Streamed(fb, x, y, w, h, ps + [px]);
    hide Size, Place, InBox;
    forall k | k in fb ensures l[k] == r[k] {
      if InBox(k, x, y, w, h) {
        PlaceIs(k, x, y, w, h, m);
      }
    }
  }

  /** Whatever the number of pixels, the window shows the last one written to each place. */
  lemma {:induction false} FeedStream(p: Panel, w: nat, h: nat, ps: seq<Pixel>)
    requires Open(p, w, h)
    ensures Feed(p, Pixels(ps))
         == p.(fb := Streamed(p.fb, p.x1, p.y1, w, h, ps), mode := Cursor(p, w, h, |ps|))
    decreases |ps|
  {
    hide Feed, Pixels, Streamed, Size, Put;
    if ps == [] {
      StreamNothing(p, w, h);
    } else {
      var before, px := ps[..|ps| - 1], ps[|ps| - 1];
      FeedStream(p, w, h, before);
      assert ps == before + [px];
      PixelsAppend(before, [px]);
      FeedAppend(p, Pixels(before), Pixels([px]));
      var q := Feed(p, Pixels(before));
      FeedPixel(q, px);
      PutMore(p.fb, p.x1, p.y1, w, h, before, px);
      CursorMoves(p, q, w, h, |before|);
    }
  }

  lemma StreamNothing(p: Panel, w: nat, h: nat)
    requires Open(p, w, h)
    ensures Feed(p, Pixels([])) == p && Streamed(p.fb, p.x1, p.y1, w, h, []) == p.fb && Cursor(p, w, h, 0) == p.mode
  {
    assert PixelBytes([]) == [] && Tag(true, []) == [];
    assert 0 % Size(w, h) == 0 && 0 % w == 0 && 0 / w == 0;
  }

  /** The j-th of at most `size` last pixels stands where the pointer was when it came. */
  lemma {:induction false} ShownLast(ps: seq<Pixel>, last: seq<Pixel>, size: nat, j: nat)
    requires j < |last| <= size
    ensures Shown(ps + last, size, (|ps| + j) % size) == Some(last[j])
    decreases |last|
  {
    var n := |last| - 1;
    assert (ps + last)[..|ps| + n] == ps + last[..n];
    if j < n {
      DistinctRemainders(|ps| + j, |ps| + n, size);
      ShownLast(ps, last[..n], size, j);
    }
  }

  lemma DistinctRemainders(a: nat, b: nat, size: nat)
    requires a < b < a + size
    ensures a % size != b % size
  {
    var d := b / size - a / size;
    assert a == (a / size) * size + a % size && b == (b / size) * size + b % size;
    assert d * size == (b / size) * size - (a / size) * size;
    CB.Scale(d, size);
  }

  lemma {:induction false} BoxPixelsAt(pic: Picture, w: nat, h: nat, rows: nat, dy: nat, dx: nat, i: nat)
    requires Covers(pic, w, h) && dy < rows <= h && dx < w && i == dy * w + dx
    ensures |BoxPixels(pic, w, h, rows)| == rows * w && i < |BoxPixels(pic, w, h, rows)|
    ensures BoxPixels(pic, w, h, rows)[i] == PixelAt(pic, w, h, dy, dx)
    decreases rows
  {
    hide PixelAt, HasGlyph;
    BoxSize(pic, w, h, rows);
    BoxSize(pic, w, h, rows - 1);
    assert rows * w == (rows - 1) * w + w;
    if dy < rows - 1 {
      BoxPixelsAt(pic, w, h, rows - 1, dy, dx, i);
    }
  }

  lemma {:induction false} BoxSize(pic: Picture, w: nat, h: nat, rows: nat)
    requires Covers(pic, w, h) && rows <= h
    ensures |BoxPixels(pic, w, h, rows)| == rows * w
  {
    if rows > 0 {
      BoxSize(pic, w, h, rows - 1);
      assert rows * w == (rows - 1) * w + w;
    }
  }

  lemma PlaceInRange(k: (int, int), x: int, y: int, w: nat, h: nat)
    requires w >= 1 && h >= 1 && InBox(k, x, y, w, h)
    ensures 0 <= Place(k, x, y, w) < Size(w, h)
  {
    var dy := k.1 - y;
    assert (h - dy) * w == h * w - dy * w;
    assert dy * w >= 0;
    CB.Scale(h - dy, w);
  }

  /** What the driver sends to paint a picture at (x, y). */
  function BoxWire(x: U16, y: U16, w: nat, h: nat, pic: Picture): seq<WireByte>
    requires Covers(pic, w, h)
  {
    Window(x, y, ToU16(x as int + w - 1), ToU16(y as int + h - 1)) + Pixels(BoxPixels(pic, w, h, h))
  }

  /** The frame with a picture painted into its box, and nothing else changed. */
  function PaintedBox(fb: Frame, x: int, y: int, w: nat, h: nat, pic: Picture): Frame
    requires Covers(pic, w, h)
  {
    map k | k in fb :: if InBox(k, x, y, w, h) then PixelAt(pic, w, h, k.1 - y, k.0 - x) else fb[k]
  }

  lemma StreamedBox(fb: Frame, x: int, y: int, w: nat, h: nat, pic: Picture)
    requires Covers(pic, w, h) && w >= 1 && h >= 1
    ensures Streamed(fb, x, y, w, h, BoxPixels(pic, w, h, h)) == PaintedBox(fb, x, y, w, h, pic)
  {
    hide PixelAt, HasGlyph, BoxPixels, Shown;
    var ps := BoxPixels(pic, w, h, h);
    forall k | k in fb && InBox(k, x, y, w, h)
      ensures Shown(ps, Size(w, h), Place(k, x, y, w)) == Some(PixelAt(pic, w, h, k.1 - y, k.0 - x))
    {
      var i := Place(k, x, y, w);
      PlaceInRange(k, x, y, w, h);
      BoxPixelsAt(pic, w, h, h, k.1 - y, k.0 - x, i);
      assert [] + ps == ps;
      ShownLast([], ps, Size(w, h), i);
      CB.DivModUnique(i, Size(w, h), 0, i);
    }
  }

  /** Whatever the panel was doing, the box is painted and every other pixel is kept. */
  lemma FeedBoxWire(p: Panel, x: U16, y: U16, w: nat, h: nat, pic: Picture)
    requires Covers(pic, w, h) && w >= 1 && h >= 1 && x as int + w <= 0x1_0000 && y as int + h <= 0x1_0000
    ensures Feed(p, BoxWire(x, y, w, h, pic)).fb == PaintedBox(p.fb, x, y, w, h, pic)
  {
    hide Feed, Window, Pixels, BoxPixels, PaintedBox, Streamed, HasGlyph;
    var x2, y2 := x as int + w - 1, y as int + h - 1;
    assert ToU16(x2) == x2 && ToU16(y2) == y2;
    FeedWindowStream(p, x, y, w, h, BoxPixels(pic, w, h, h));
    StreamedBox(p.fb, x, y, w, h, pic);
  }

  /** A window and any pixels: only the window changes, and it shows the last one written to each place. */
  lemma FeedWindowStream(p: Panel, x: U16, y: U16, w: nat, h: nat, ps: seq<Pixel>)
    requires w >= 1 && h >= 1 && x as int + w <= 0x1_0000 && y as int + h <= 0x1_0000
    ensures Feed(p, Window(x, y, x as int + w - 1, y as int + h - 1) + Pixels(ps)).fb == Streamed(p.fb, x, y, w, h, ps)
  {
    hide Feed, Window, Pixels, Streamed;
    var x2, y2 := x as int + w - 1, y as int + h - 1;
    FeedWindow(p, x, y, x2, y2);
    FeedStream(Feed(p, Window(x, y, x2, y2)), w, h, ps);
    FeedAppend(p, Window(x, y, x2, y2), Pixels(ps));
  }

  // ---- text

  predicate HasGlyphs(font: Font, text: seq<int>) {
    forall i | 0 <= i < |text| :: HasGlyph(font, text[i])
  }

  /** One box per character, each to the right of the one before. */
  function TextWire(x: U16, y: U16, text: seq<int>, font: Font, fg: Pixel, bg: Pixel): seq<WireByte>
    requires HasGlyphs(font, text)
  {
    if text == [] then [] else
      var last := |text| - 1;
      TextWire(x, y, text[..last], font, fg, bg)
      + BoxWire(ToU16(x as int + last * font.width), y, font.width, font.height, Glyph(font, text[last], fg, bg))
  }

  /** Column (px - x) % width of character (px - x) / width, for a pixel of the text box. */
  function TextPixel(text: seq<int>, font: Font, fg: Pixel, bg: Pixel, dx: nat, dy: nat): Pixel
    requires HasGlyphs(font, text) && font.width >= 1 && dy < font.height
    requires dx < |text| * font.width
  {
    CharIndex(|text|, font.width, dx);
    CharPixel(text[dx / font.width], font, fg, bg, dy, dx % font.width)
  }

  function CharPixel(ch: int, font: Font, fg: Pixel, bg: Pixel, row: nat, col: nat): Pixel
    requires HasGlyph(font, ch) && row < font.height && col < font.width
  {
    PixelAt(Glyph(font, ch, fg, bg), font.width, font.height, row, col)
  }

  /** The frame with the text box painted and every other pixel kept. */
  function PaintedText(fb: Frame, x: int, y: int, text: seq<int>, font: Font, fg: Pixel, bg: Pixel): Frame
    requires HasGlyphs(font, text) && font.width >= 1
  {
    map k | k in fb ::
      if InBox(k, x, y, |text| * font.width, font.height) then TextPixel(text, font, fg, bg, k.0 - x, k.1 - y)
      else fb[k]
  }

  lemma CharIndex(n: nat, w: nat, dx: nat)
    requires w >= 1 && dx < n * w
    ensures dx / w < n && dx % w < w
  {
    var d := dx / w - n;
    assert dx == (dx / w) * w + dx % w;
    assert (d + 1) * w == (dx / w) * w - n * w + w;
    CB.Scale(d + 1, w);
  }

  lemma TextPixelFront(text: seq<int>, ch: int, font: Font, fg: Pixel, bg: Pixel, dx: nat, dy: nat)
    requires HasGlyphs(font, text) && HasGlyphs(font, text + [ch]) && font.width >= 1 && dy < font.height
    requires dx < |text| * font.width && dx < |text + [ch]| * font.width
    ensures TextPixel(text + [ch], font, fg, bg, dx, dy) == TextPixel(text, font, fg, bg, dx, dy)
  {
    hide HasGlyph, CharPixel;
    CharIndex(|text|, font.width, dx);
  }

  lemma TextPixelLast(text: seq<int>, ch: int, font: Font, fg: Pixel, bg: Pixel, dx: nat, dy: nat, n: nat)
    requires HasGlyph(font, ch) && HasGlyphs(font, text + [ch]) && font.width >= 1 && dy < font.height
    requires n == |text| * font.width && n <= dx < n + font.width && dx < |text + [ch]| * font.width
    ensures TextPixel(text + [ch], font, fg, bg, dx, dy) == CharPixel(ch, font, fg, bg, dy, dx - n)
  {
    hide HasGlyph, CharPixel;
    CB.DivModUnique(dx, font.width, |text|, dx - n);
  }

  lemma PaintedTextMore(fb: Frame, x: int, y: int, text: seq<int>, ch: int, font: Font, fg: Pixel, bg: Pixel, n: nat)
    requires HasGlyphs(font, text) && HasGlyph(font, ch) && HasGlyphs(font, text + [ch]) && font.width >= 1
    requires n == |text| * font.width && |text + [ch]| * font.width == n + font.width
    ensures PaintedBox(PaintedText(fb, x, y, text, font, fg, bg), x + n, y, font.width, font.height, Glyph(font, ch, fg, bg))
         == PaintedText(fb, x, y, text + [ch], font, fg, bg)
  {
    hide TextPixel, PixelAt, HasGlyph;
    var w, h := font.width, font.height;
    var l := PaintedBox(PaintedText(fb, x, y, text, font, fg, bg), x + n, y, w, h, Glyph(font, ch, fg, bg));
    var r := PaintedText(fb, x, y, text + [ch], font, fg, bg);
    forall k | k in fb ensures l[k] == r[k] {
      if InBox(k, x + n, y, w, h) {
        TextPixelLast(text, ch, font, fg, bg, k.0 - x, k.1 - y, n);
      } else if InBox(k, x, y, n, h) {
        TextPixelFront(text, ch, font, fg, bg, k.0 - x, k.1 - y);
      }
    }
  }

  lemma PaintedTextSnoc(fb: Frame, x: int, y: int, text: seq<int>, font: Font, fg: Pixel, bg: Pixel)
    requires HasGlyphs(font, text) && font.width >= 1 && text != []
    ensures PaintedBox(PaintedText(fb, x, y, text[..|text| - 1], font, fg, bg), x + (|text| - 1) * font.width, y,
                       font.width, font.height, Glyph(font, text[|text| - 1], fg, bg))
         == PaintedText(fb, x, y, text, font, fg, bg)
  {
    hide PaintedText, PaintedBox, HasGlyph;
    var last := |text| - 1;
    var n := last * font.width;
    assert |text| * font.width == n + font.width && n >= 0;
    assert text == text[..last] + [text[last]];
    PaintedTextMore(fb, x, y, text[..last], text[last], font, fg, bg, n);
  }

  lemma PaintNoText(p: Panel, x: U16, y: U16, font: Font, fg: Pixel, bg: Pixel)
    requires font.width >= 1
    ensures Feed(p, TextWire(x, y, [], font, fg, bg)).fb == PaintedText(p.fb, x, y, [], font, fg, bg)
  {
  }

  /** The text box is painted glyph by glyph, whatever the panel was doing before. */
  lemma {:induction false} FeedText(p: Panel, x: U16, y: U16, text: seq<int>, font: Font, fg: Pixel, bg: Pixel)
    requires HasGlyphs(font, text) && font.width >= 1 && font.height >= 1
    requires x as int + |text| * font.width <= 0x1_0000 && y as int + font.height <= 0x1_0000
    ensures Feed(p, TextWire(x, y, text, font, fg, bg)).fb == PaintedText(p.fb, x, y, text, font, fg, bg)
    decreases text
  {
    hide Feed, PaintedText, PaintedBox, BoxWire, HasGlyph, TextWire, ToU16;
    if text == [] {
      PaintNoText(p, x, y, font, fg, bg);
    } else {
      var last := |text| - 1;
      LastColumn(x, |text|, font.width);
      LastCharWire(x, y, text, font, fg, bg);
      var n, pic := last * font.width, Glyph(font, text[last], fg, bg);
      var before := TextWire(x, y, text[..last], font, fg, bg);
      FeedText(p, x, y, text[..last], font, fg, bg);
      FeedBoxWire(Feed(p, before), x as int + n, y, font.width, font.height, pic);
      FeedAppend(p, before, BoxWire(x as int + n, y, font.width, font.height, pic));
      PaintedTextSnoc(p.fb, x, y, text, font, fg, bg);
    }
  }

  lemma LastColumn(x: U16, len: nat, w: nat)
    requires len >= 1 && w >= 1 && x as int + len * w <= 0x1_0000
    ensures len * w == (len - 1) * w + w && 0 <= (len - 1) * w
    ensures ToU16(x as int + (len - 1) * w) == x as int + (len - 1) * w
  {
    var n := (len - 1) * w;
    assert len * w == n + w;
    assert n >= 0;
  }

  lemma LastCharWire(x: U16, y: U16, text: seq<int>, font: Font, fg: Pixel, bg: Pixel)
    requires text != [] && HasGlyphs(font, text)
    ensures var last := |text| - 1;
      TextWire(x, y, text, font, fg, bg)
      == TextWire(x, y, text[..last], font, fg, bg)
         + BoxWire(ToU16(x as int + last * font.width), y, font.width, font.height, Glyph(font, text[last], fg, bg))
  {
    hide BoxWire, HasGlyph;
  }
}
