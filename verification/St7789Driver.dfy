/** The staging buffer, D/C switching and drawing routines of demo/st7789/st7789.c. */
module St7789Driver {
  import opened CTypes
  import opened St7789Glyph
  import opened St7789Panel
  import CB = CircBuffer

  const BUF_SIZE: nat := 1152
  const PER_BUF: nat := 576 // pixels in a full staging buffer
  const W: nat := 240
  const H: nat := 240

  /** Fill and Clear send a colour's high byte first. */
  function FillPixel(color: U16): Pixel { Pixel(color / 256, color % 256) }

  /** DrawChar sends a colour as it lies in the little-endian host's memory, low byte first. */
  function HostPixel(color: U16): Pixel { Pixel(color % 256, color / 256) }

  function Repeat<T>(x: T, n: nat): (s: seq<T>)
    ensures |s| == n && forall i | 0 <= i < n :: s[i] == x
  {
    seq(n, _ => x)
  }

  datatype Call = Bytes(data: seq<Byte>) | Flush

  function Written(calls: seq<Call>): seq<Byte> {
    if calls == [] then [] else
      var last := calls[|calls| - 1];
      Written(calls[..|calls| - 1]) + if last.Bytes? then last.data else []
  }

  class Display {
    const buf: array<Byte>       // st7789_buf
    var pt: nat                  // st7789_buf_pt
    var isdata: bool
    var dc: bool                 // level of the D/C pin
    var wire: seq<WireByte>      // every byte clocked out, with the D/C level it had
    var sizes: seq<nat>          // length of every tls_spi_write

    ghost predicate Valid()
      reads this
    {
      buf.Length == BUF_SIZE && pt < BUF_SIZE && isdata == dc
    }

    /** What has been sent and what is still staged. */
    ghost function Stream(): seq<WireByte>
      requires Valid()
      reads this, buf
    {
      wire + Tag(dc, buf[..pt])
    }

    constructor ()
      ensures Valid() && pt == 0 && !dc && wire == [] && sizes == []
    {
      buf := new Byte[BUF_SIZE];
      pt, isdata, dc, wire, sizes := 0, false, false, [], [];
    }

    // ---- D/C switching and direct writes

    method GpioCmd()
      requires Valid()
      modifies this`dc, this`isdata
      ensures Valid() && !dc
    {
      if isdata {
        dc := false;
        isdata := false;
      }
    }

    method GpioData()
      requires Valid()
      modifies this`dc, this`isdata
      ensures Valid() && dc
    {
      if !isdata {
        dc := true;
        isdata := true;
      }
    }

    method Transmit(data: seq<Byte>)
      modifies this`wire, this`sizes
      ensures wire == old(wire) + Tag(dc, data) && sizes == old(sizes) + [|data|]
    {
      wire := wire + Tag(dc, data);
      sizes := sizes + [|data|];
    }

    method WriteCommand(b: Byte)
      requires Valid()
      modifies this`dc, this`isdata, this`wire, this`sizes
      ensures Valid() && wire == old(wire) + [Cmd(b)] && sizes == old(sizes) + [1] && !dc
    {
      GpioCmd();
      Transmit([b]);
      assert Tag(false, [b]) == [Cmd(b)];
    }

    method WriteDataByte(n: nat)
      requires Valid()
      modifies this`dc, this`isdata, this`wire, this`sizes
      ensures Valid() && wire == old(wire) + [Data(ToByte(n))] && sizes == old(sizes) + [1]
    {
      GpioData();
      Transmit([ToByte(n)]);
      assert Tag(true, [ToByte(n)]) == [Data(ToByte(n))];
    }

    method SendAddress(cmd: Byte, from: U16, to: U16)
      requires Valid()
      modifies this`dc, this`isdata, this`wire, this`sizes
      ensures Valid() && wire == old(wire) + Address(cmd, from, to) && |sizes| == old(|sizes|) + 5
    {
      WriteCommand(cmd);
      WriteDataByte(from / 256);
      WriteDataByte(from);
      WriteDataByte(to / 256);
      WriteDataByte(to);
      assert from / 256 < 256 && to / 256 < 256;
      assert wire == old(wire) + Address(cmd, from, to);
    }

    /** The window commands go straight to the wire; staged bytes stay staged. */
    method SetAddrWindow(x1: U16, y1: U16, x2: U16, y2: U16)
      requires Valid()
      modifies this`dc, this`isdata, this`wire, this`sizes
      ensures Valid() && wire == old(wire) + Window(x1, y1, x2, y2) && !dc
    {
      SendAddress(0x2A, x1, x2);
      SendAddress(0x2B, y1, y2);
      WriteCommand(0x2C);
      assert wire == old(wire) + Window(x1, y1, x2, y2);
    }

    // ---- the staging buffer

    /** One turn of the ST7789_WriteBuff loop. */
    method Stage(b: Byte)
      requires Valid()
      modifies buf, this`pt, this`wire, this`sizes
      ensures Valid() && buf[..] == old(buf[..])[old(pt) := b]
      ensures Stream() == old(Stream()) + Tag(dc, [b])
      ensures pt == if old(pt) + 1 == BUF_SIZE then 0 else old(pt) + 1
      ensures sizes == old(sizes) + if old(pt) + 1 == BUF_SIZE then [BUF_SIZE] else []
    {
      ghost var staged := buf[..pt];
      buf[pt] := b;
      pt := pt + 1;
      assert buf[..pt] == staged + [b];
      TagAppend(dc, staged, [b]);
      if pt == BUF_SIZE {
        Transmit(buf[..pt]);
        pt := 0;
      }
    }

    /** Whatever the chunk boundaries, the staged stream grows by exactly the source bytes, and every
        transmission is a full buffer. The source may be the staging buffer itself: then the bytes are the
        ones it held, provided nothing was staged, or whole pixels were and the source is of one colour. */
    method WriteBuff(src: array<Byte>, n: nat)
      requires Valid() && n <= src.Length
      modifies buf, this`pt, this`wire, this`sizes
      ensures Valid()
      ensures src != buf || Harmless(old(pt), old(src[..n])) ==>
        Stream() == old(Stream()) + Tag(dc, old(src[..n])) && src[..n] == old(src[..n])
      ensures |Stream()| == old(|Stream()|) + n && pt == (old(pt) + n) % BUF_SIZE
      ensures sizes == old(sizes) + Repeat(BUF_SIZE, (old(pt) + n) / BUF_SIZE)
    {
      hide Tag, Chunked, Display.Stream, Harmless, Repeat;
      ghost var bytes := src[..n];
      ghost var aligned := src != buf || Harmless(pt, bytes);
      ghost var k: nat := 0;
      StartChunks(pt);
      TagNothing(dc, bytes);
      NoChunks(sizes);
      for i := 0 to n
        invariant Valid()
        invariant aligned ==> Stream() == old(Stream()) + Tag(dc, bytes[..i]) && src[..n] == bytes
        invariant |Stream()| == old(|Stream()|) + i
        invariant Chunked(old(pt) + i, pt, k) && sizes == old(sizes) + Repeat(BUF_SIZE, k)
      {
        ghost var b := src[i];
        assert aligned ==> b == src[..n][i] == bytes[i];
        TagOneMore(dc, bytes, i);
        NextChunk(old(pt) + i, pt, k);
        ghost var full := pt + 1 == BUF_SIZE;
        if src == buf && aligned {
          if pt < n {
            SameByte(bytes, old(pt), pt, k, i);
          }
          assert buf[..][..n] == buf[..n];
          Unchanged(buf[..], pt, b, bytes);
        }
        Stage(src[i]);
        assert src == buf ==> buf[..n] == buf[..][..n];
        if full {
          OneMoreChunk(old(sizes), k);
          k := k + 1;
        }
      }
      assert bytes[..n] == bytes;
      ChunksAre(old(pt) + n, pt, k);
    }

    method FlushBuff()
      requires Valid()
      modifies this`pt, this`wire, this`sizes
      ensures Valid() && pt == 0 && wire == Stream() == old(Stream())
      ensures sizes == old(sizes) + if old(pt) > 0 then [old(pt)] else []
    {
      if pt > 0 {
        Transmit(buf[..pt]);
        pt := 0;
      }
      assert Tag(dc, buf[..0]) == [];
      assert wire + [] == wire;
    }

    /** A buffered write of these bytes from somewhere else in memory. */
    method WriteCopy(data: seq<Byte>)
      requires Valid()
      modifies buf, this`pt, this`wire, this`sizes
      ensures Valid() && Stream() == old(Stream()) + Tag(dc, data)
      ensures old(sizes) <= sizes && forall i | old(|sizes|) <= i < |sizes| :: sizes[i] == BUF_SIZE
    {
      hide Tag, Display.Stream;
      var src := new Byte[|data|](k requires 0 <= k < |data| => data[k]);
      assert src[..|data|] == data;
      WriteBuff(src, |data|);
    }

    /** Any sequence of buffered writes and flushes is invisible in the stream: it grows by exactly the
        written bytes in order, and only a flush ever sends less than a full buffer. */
    method Replay(calls: seq<Call>)
      requires Valid()
      modifies buf, this`pt, this`wire, this`sizes
      ensures Valid() && Stream() == old(Stream()) + Tag(dc, Written(calls))
      ensures old(sizes) <= sizes
      ensures forall i | old(|sizes|) <= i < |sizes| :: sizes[i] == BUF_SIZE || (sizes[i] < BUF_SIZE && Flush in calls)
    {
      hide Tag, Display.Stream;
      assert calls[..0] == [];
      TagNothing(dc, []);
      for i := 0 to |calls|
        invariant Valid() && Stream() == old(Stream()) + Tag(dc, Written(calls[..i]))
        invariant old(sizes) <= sizes
        invariant forall j | old(|sizes|) <= j < |sizes| :: sizes[j] == BUF_SIZE || (sizes[j] < BUF_SIZE && Flush in calls)
      {
        assert calls[..i + 1][..i] == calls[..i];
        ghost var before := Written(calls[..i]);
        assert Written(calls[..i + 1]) == before + if calls[i].Bytes? then calls[i].data else [];
        match calls[i] {
          case Bytes(data) =>
            TagAppend(dc, before, data);
            assert old(Stream()) + (Tag(dc, before) + Tag(dc, data)) == old(Stream()) + Tag(dc, before) + Tag(dc, data);
            WriteCopy(data);
          case Flush =>
            assert before + [] == before;
            FlushBuff();
        }
      }
      assert calls[..|calls|] == calls;
    }

    // ---- drawing

    /** Write n pixels of one colour into the staging buffer itself. */
    method Prefill(px: Pixel, n: nat)
      requires Valid() && 2 * n <= BUF_SIZE
      modifies buf
      ensures buf[..2 * n] == PixelBytes(Repeat(px, n))
      ensures buf[2 * n..] == old(buf[2 * n..])
    {
      for i := 0 to n
        invariant buf[..2 * i] == PixelBytes(Repeat(px, i))
        invariant buf[2 * n..] == old(buf[2 * n..])
      {
        RepeatMore(px, i, 1);
        buf[2 * i] := px.first;
        buf[2 * i + 1] := px.second;
        assert buf[..2 * (i + 1)] == buf[..2 * i] + [px.first, px.second];
      }
    }

    /** Queue the first n pixels of the staging buffer, all of one colour, into the staging buffer. */
    method QueueSelf(px: Pixel, n: nat)
      requires Valid() && dc && 2 * n <= BUF_SIZE && (pt % 2 == 0 ==> buf[..2 * n] == PixelBytes(Repeat(px, n)))
      modifies buf, this`pt, this`wire, this`sizes
      ensures Valid() && |Stream()| == old(|Stream()|) + 2 * n && pt == (old(pt) + 2 * n) % BUF_SIZE
      ensures old(pt) % 2 == 0 ==>
        Stream() == old(Stream()) + Pixels(Repeat(px, n)) && buf[..2 * n] == PixelBytes(Repeat(px, n))
    {
      hide Tag, PixelBytes, Repeat, Display.Stream;
      if pt % 2 == 0 {
        SolidIsHarmless(pt, px, n);
      }
      WriteBuff(buf, 2 * n);
    }

    /** One turn of the loop in ST7789_Fill. Bytes already staged are recoloured as far as the new colour
        is written over them. */
    method SendSolid(px: Pixel, n: nat)
      requires Valid() && 2 * n <= BUF_SIZE
      modifies buf, this`dc, this`isdata, this`pt, this`wire, this`sizes
      ensures Valid() && dc
      ensures |Stream()| == old(|Stream()|) + 2 * n && pt == (old(pt) + 2 * n) % BUF_SIZE
      ensures old(pt) % 2 == 0 ==>
        && Stream() == old(wire) + Tag(true, Recoloured(old(buf[..pt]), px, n)) + Pixels(Repeat(px, n))
        && buf[..2 * n] == PixelBytes(Repeat(px, n))
    {
      hide Tag, PixelBytes, Repeat, Recoloured;
      TagLength(dc, buf[..pt]);
      ghost var was := buf[..];
      Prefill(px, n);
      if pt % 2 == 0 {
        Overwritten(was, buf[..], px, n, pt);
        assert buf[..pt] == buf[..][..pt] && was[..pt] == old(buf[..pt]);
      }
      GpioData();
      TagLength(dc, buf[..pt]);
      QueueSelf(px, n);
    }

    /** About to queue n more pixels: what is sent and staged will then be base and done pixels of the colour. */
    ghost predicate Filling(px: Pixel, n: nat, base: seq<WireByte>, done: nat)
      requires Valid()
      reads this, buf
    {
      pt % 2 == 0 ==> wire + Tag(true, Recoloured(buf[..pt], px, n)) == base + Pixels(Repeat(px, done))
    }

    /** One turn of ST7789_Fill's loop on top of the turns before; a full buffer leaves everything ready for
        the next turn's m pixels. */
    method FillRound(px: Pixel, n: nat, ghost base: seq<WireByte>, ghost done: nat, ghost m: int)
      requires Valid() && 2 * n <= BUF_SIZE && Filling(px, n, base, done)
      modifies buf, this`dc, this`isdata, this`pt, this`wire, this`sizes
      ensures Valid() && dc
      ensures |Stream()| == old(|Stream()|) + 2 * n && pt == (old(pt) + 2 * n) % BUF_SIZE
      ensures old(pt) % 2 == 0 ==> Stream() == base + Pixels(Repeat(px, done + n))
      ensures n == PER_BUF && 0 <= m <= PER_BUF ==> Filling(px, m, base, done + n)
    {
      hide Tag, Pixels, PixelBytes, Repeat, Display.Stream, Recoloured;
      MoreOf(px, done, n, base);
      SendSolid(px, n);
      if pt % 2 == 0 && n == PER_BUF && 0 <= m <= PER_BUF {
        assert buf[..BUF_SIZE] == buf[..] && buf[..pt] == buf[..][..pt];
        StreamIs();
        AlreadyColoured(buf[..], px, m, pt);
      }
    }

    /** ST7789_Fill's loop: count pixels, a buffer at a time. */
    method FillLoop(px: Pixel, count: nat)
      requires Valid()
      modifies buf, this`dc, this`isdata, this`pt, this`wire, this`sizes
      ensures Valid() && dc
      ensures |Stream()| == old(|Stream()|) + 2 * count && pt == (old(pt) + 2 * count) % BUF_SIZE
      ensures old(pt) % 2 == 0 ==>
        Stream() == old(wire) + Tag(true, Recoloured(old(buf[..pt]), px, Min(count, PER_BUF))) + Pixels(Repeat(px, count))
    {
      hide Tag, Pixels, PixelBytes, Repeat, Display.Stream, Recoloured, Display.Filling, FillCounts;
      var size, remain := count * 2, 0;
      if size > BUF_SIZE {
        remain := size - BUF_SIZE;
        size := BUF_SIZE;
      }
      ghost var chunks: nat := 0;
      ghost var base := wire + Tag(true, Recoloured(buf[..pt], px, Min(count, PER_BUF)));
      FillStarts(px, Min(count, PER_BUF));
      CountsStart(count, size, remain);
      while true
        invariant Valid() && pt == old(pt) && 0 <= size && 0 <= remain && FillCounts(count, chunks, size, remain)
        invariant |Stream()| == old(|Stream()|) + BUF_SIZE * chunks
        invariant Filling(px, size / 2, base, PER_BUF * chunks)
        decreases remain
      {
        CountsNext(count, chunks, size, remain, pt);
        FillRound(px, size / 2, base, PER_BUF * chunks, NextSize(size, remain) / 2);
        if remain == 0 {
          break;
        }
        chunks := chunks + 1;
        if remain > BUF_SIZE {
          remain := remain - BUF_SIZE;
        } else {
          size := remain;
          remain := 0;
        }
      }
    }

    lemma FillStarts(px: Pixel, n: nat)
      requires Valid()
      ensures Filling(px, n, wire + Tag(true, Recoloured(buf[..pt], px, n)), 0)
    {
      NoPixels(px);
    }

    lemma StreamIs()
      requires Valid()
      ensures Stream() == wire + Tag(dc, buf[..pt])
    {
    }

    /** The window and width * height copies of the colour, although the source is the staging buffer itself.
        Pixels already staged go into the window first, recoloured as far as the new colour is written over
        them. Only full buffers are transmitted: from an empty buffer, or with a rectangle of at least one,
        the panel shows 576 * ((staged + width * height) / 576) pixels of the colour, and the others stay staged. */
    method Fill(xs: U16, ys: U16, xe: U16, ye: U16, color: U16)
      requires Valid() && xs <= xe && ys <= ye && Area(xs, ys, xe, ye) * 2 < 0x8000_0000
      modifies buf, this`dc, this`isdata, this`pt, this`wire, this`sizes
      ensures Valid() && dc
      ensures pt == (old(pt) + 2 * Area(xs, ys, xe, ye)) % BUF_SIZE
      ensures |Stream()| == old(|Stream()|) + 11 + 2 * ((xe - xs + 1) * (ye - ys + 1))
      ensures var px, count := FillPixel(color), Area(xs, ys, xe, ye);
        old(pt) % 2 == 0 ==>
          Stream() == old(wire) + Window(xs, ys, xe, ye)
                      + Tag(true, Recoloured(old(buf[..pt]), px, Min(count, PER_BUF))) + Pixels(Repeat(px, count))
      ensures var px, count := FillPixel(color), Area(xs, ys, xe, ye) + old(pt) / 2;
        old(pt) == 0 || (old(pt) % 2 == 0 && Area(xs, ys, xe, ye) >= PER_BUF) ==>
          && wire == old(wire) + Window(xs, ys, xe, ye) + Pixels(Repeat(px, FullChunks(count)))
          && Tag(true, buf[..pt]) == Pixels(Repeat(px, count % PER_BUF))
          && forall p: Panel ::
               Feed(p, wire).fb
               == PaintedFirst(Feed(p, old(wire)).fb, xs, ys, xe - xs + 1, ye - ys + 1, px, FullChunks(count))
    {
      hide Tag, Pixels, PixelBytes, Window, Area, Feed, PaintedFirst, Repeat, FullChunks, Recoloured;
      WindowLength(xs, ys, xe, ye);
      TagLength(dc, buf[..pt]);
      SetAddrWindow(xs, ys, xe, ye);
      TagLength(dc, buf[..pt]);
      ghost var base := wire;
      var px, count := FillPixel(color), (xe - xs + 1) * (ye - ys + 1);
      assert count == Area(xs, ys, xe, ye) by { AreaIs(xs, ys, xe, ye); }
      FillLoop(px, count);
      if old(pt) == 0 || (old(pt) % 2 == 0 && count >= PER_BUF) {
        ghost var all := count + old(pt) / 2;
        AllColoured(old(buf[..pt]), px, Min(count, PER_BUF), count, base);
        SentPart(wire, buf[..pt], base, px, all);
        forall p: Panel ensures Feed(p, wire).fb
          == PaintedFirst(Feed(p, old(wire)).fb, xs, ys, xe - xs + 1, ye - ys + 1, px, FullChunks(all))
        {
          FillShows(p, old(wire), xs, ys, xe, ye, color, FullChunks(all));
        }
      }
    }

    /** Once flushed, the rectangle is painted as a whole and nothing else is. */
    method FillThenFlush(xs: U16, ys: U16, xe: U16, ye: U16, color: U16)
      requires Valid() && pt == 0 && xs <= xe && ys <= ye && Area(xs, ys, xe, ye) * 2 < 0x8000_0000
      modifies buf, this`dc, this`isdata, this`pt, this`wire, this`sizes
      ensures Valid() && pt == 0
      ensures forall p: Panel ::
                Feed(p, wire).fb
                == map k | k in Feed(p, old(wire)).fb ::
                     if xs <= k.0 <= xe && ys <= k.1 <= ye then FillPixel(color) else Feed(p, old(wire)).fb[k]
    {
      hide Tag, Pixels, Window, Area, Feed, Repeat, FullChunks, Recoloured, Display.Stream, PaintedFirst;
      ghost var px, n := FillPixel(color), Area(xs, ys, xe, ye);
      Fill(xs, ys, xe, ye, color);
      NothingStaged(old(wire) + Window(xs, ys, xe, ye), px, n);
      FlushBuff();
      forall p: Panel ensures Feed(p, wire).fb
        == map k | k in Feed(p, old(wire)).fb ::
             if xs <= k.0 <= xe && ys <= k.1 <= ye then px else Feed(p, old(wire)).fb[k]
      {
        FillShows(p, old(wire), xs, ys, xe, ye, color, n);
        AllPlaces(Feed(p, old(wire)).fb, xs, ys, xe, ye, px);
      }
    }

    /** The loop of ST7789_Clear: a hundred times the whole staging buffer. */
    method SendScreen(px: Pixel, ghost base: seq<WireByte>)
      requires Valid() && dc
      requires pt % 2 == 0 ==>
        buf[..] == PixelBytes(Repeat(px, PER_BUF)) && Stream() == base + Pixels(Repeat(px, pt / 2))
      modifies buf, this`pt, this`wire, this`sizes
      ensures Valid() && pt == old(pt) && |Stream()| == old(|Stream()|) + 2 * W * H
      ensures pt % 2 == 0 ==> Stream() == base + Pixels(Repeat(px, pt / 2 + W * H))
    {
      hide Tag, Pixels, PixelBytes, Repeat, Display.Stream;
      for i := 0 to 2 * W * H / BUF_SIZE
        invariant Valid() && dc && pt == old(pt) && |Stream()| == old(|Stream()|) + BUF_SIZE * i
        invariant pt % 2 == 0 ==>
          buf[..] == PixelBytes(Repeat(px, PER_BUF)) && Stream() == base + Pixels(Repeat(px, pt / 2 + PER_BUF * i))
      {
        MoreOf(px, pt / 2 + PER_BUF * i, PER_BUF, base);
        assert buf[..2 * PER_BUF] == buf[..];
        QueueSelf(px, PER_BUF);
        assert buf[..2 * PER_BUF] == buf[..];
      }
    }

    /** Exactly 240 * 240 pixels of the colour are sent. Pixels already staged are recoloured and sent first, and
        as many stay staged. */
    method Clear(color: U16)
      requires Valid()
      modifies buf, this`dc, this`isdata, this`pt, this`wire, this`sizes
      ensures Valid() && dc && pt == old(pt)
      ensures |Stream()| == old(|Stream()|) + 11 + 2 * W * H
      ensures old(pt) % 2 == 0 ==>
        && wire == old(wire) + Window(0, 0, W - 1, H - 1) + Pixels(Repeat(FillPixel(color), W * H))
        && Tag(true, buf[..pt]) == Pixels(Repeat(FillPixel(color), pt / 2))
    {
      hide Tag, Pixels, PixelBytes, Window, Display.Stream, FullChunks, Repeat;
      var px := FillPixel(color);
      WindowLength(0, 0, W - 1, H - 1);
      TagLength(dc, buf[..pt]);
      StreamIs();
      SetAddrWindow(0, 0, W - 1, H - 1);
      Prefill(px, PER_BUF);
      GpioData();
      TagLength(dc, buf[..pt]);
      StreamIs();
      ghost var base := wire;
      assert buf[..2 * PER_BUF] == buf[..] && buf[..pt] == buf[..][..pt];
      if pt % 2 == 0 {
        ColouredPrefix(buf[..], px, PER_BUF, pt / 2);
        PixelsAre(Repeat(px, pt / 2));
      }
      SendScreen(px, base);
      StreamIs();
      if pt % 2 == 0 {
        ScreenChunks(pt / 2);
        SentPart(wire, buf[..pt], base, px, pt / 2 + W * H);
      }
    }

    /** One pixel of a glyph, in the colour's host byte order. */
    method Dot(on: bool, fg: array<Byte>, bg: array<Byte>, ghost done: seq<Pixel>, ghost base: seq<WireByte>,
               ghost fgPx: Pixel, ghost bgPx: Pixel)
      requires Valid() && dc && fg != buf && bg != buf
      requires fg.Length == bg.Length == 2 && fg[..] == [fgPx.first, fgPx.second] && bg[..] == [bgPx.first, bgPx.second]
      requires Stream() == base + Pixels(done)
      modifies buf, this`pt, this`wire, this`sizes
      ensures Valid() && Stream() == base + Pixels(done + [if on then fgPx else bgPx])
    {
      var src := if on then fg else bg;
      ghost var px := if on then fgPx else bgPx;
      assert src[..2] == src[..] == [px.first, px.second];
      WriteBuff(src, 2);
      OnePixelMore(base, done, px);
    }

    /** The k-loop of ST7789_DrawChar: up to eight pixels from one byte of the font table. */
    method DrawByte(b: bv8, i: nat, j: nat, font: Font, fg: array<Byte>, bg: array<Byte>, ghost pic: Picture,
                    ghost done: seq<Pixel>, ghost base: seq<WireByte>)
      requires Valid() && dc && fg != buf && bg != buf && pic.Glyph? && pic.font == font
      requires Covers(pic, font.width, font.height) && i < font.height && 8 * j < font.width
      requires fg.Length == bg.Length == 2
      requires fg[..] == [pic.fg.first, pic.fg.second] && bg[..] == [pic.bg.first, pic.bg.second]
      requires b == RowOf(font, pic.ch, i)[j]
      requires Stream() == base + Pixels(done + RowPixels(pic, font.width, font.height, i, 8 * j))
      modifies buf, this`pt, this`wire, this`sizes
      ensures Valid()
      ensures Stream() == base + Pixels(done + RowPixels(pic, font.width, font.height, i, ColumnsDone(font.width, j + 1)))
    {
      hide Pixels, RowPixels, HasGlyph, Display.Stream, RowOf;
      var k := 0;
      while k < 8 && k < font.width - j * 8
        invariant 0 <= k <= 8 && 8 * j + k <= font.width && Valid()
        invariant Stream() == base + Pixels(done + RowPixels(pic, font.width, font.height, i, 8 * j + k))
      {
        var on := if font.order == 0 then (b << k) & 0x80 != 0 else b & (1 << k) != 0;
        BitIsPixel(pic, i, j, k, b);
        RowPixelsSnoc(pic, font.width, font.height, i, 8 * j + k);
        ghost var row := RowPixels(pic, font.width, font.height, i, 8 * j + k);
        Dot(on, fg, bg, done + row, base, pic.fg, pic.bg);
        ghost var px := PixelAt(pic, font.width, font.height, i, 8 * j + k);
        assert done + row + [px] == done + (row + [px]);
        k := k + 1;
      }
    }

    /** The j-loop of ST7789_DrawChar: one row of the glyph. */
    method DrawRow(ch: int, i: nat, font: Font, fg: array<Byte>, bg: array<Byte>, ghost pic: Picture,
                   ghost done: seq<Pixel>, ghost base: seq<WireByte>)
      requires Valid() && dc && fg != buf && bg != buf && pic.Glyph? && pic.font == font
      requires Covers(pic, font.width, font.height) && i < font.height && pic.ch == ch
      requires fg.Length == bg.Length == 2
      requires fg[..] == [pic.fg.first, pic.fg.second] && bg[..] == [pic.bg.first, pic.bg.second]
      requires Stream() == base + Pixels(done)
      modifies buf, this`pt, this`wire, this`sizes
      ensures Valid()
      ensures Stream() == base + Pixels(done + RowPixels(pic, font.width, font.height, i, font.width))
    {
      hide Pixels, HasGlyph, Display.Stream, RowOf, PixelAt;
      var bytes: nat := font.width / 8 + if font.width % 8 != 0 then 1 else 0;
      assert bytes == RowBytes(font.width);
      assert done + RowPixels(pic, font.width, font.height, i, 0) == done;
      for j := 0 to bytes
        invariant Valid()
        invariant Stream() == base + Pixels(done + RowPixels(pic, font.width, font.height, i, ColumnsDone(font.width, j)))
      {
        RowInTable(font, ch, i, j);
        var b := font.data[((ch - 32) * font.height + i) * bytes + j];
        DrawByte(b, i, j, font, fg, bg, pic, done, base);
      }
    }

    /** The window, whatever was staged, and then exactly width * height pixels in row-major order, each
        the glyph bit of its place; nothing is left staged. */
    method DrawChar(x: U16, y: U16, ch: int, font: Font, color: U16, bgcolor: U16)
      requires Valid() && HasGlyph(font, ch)
      modifies buf, this`dc, this`isdata, this`pt, this`wire, this`sizes
      ensures Valid() && dc && pt == 0
      ensures var pic := Glyph(font, ch, HostPixel(color), HostPixel(bgcolor));
        && wire == old(wire)
                   + Window(x, y, ToU16(x as int + font.width as int - 1), ToU16(y as int + font.height as int - 1))
                   + Tag(true, old(buf[..pt]))
                   + Pixels(BoxPixels(pic, font.width, font.height, font.height))
        && (old(pt) == 0 ==> wire == old(wire) + BoxWire(x, y, font.width, font.height, pic))
        && ShowsGlyph(BoxPixels(pic, font.width, font.height, font.height), font, ch, HostPixel(color), HostPixel(bgcolor))
    {
      hide Pixels, HasGlyph, PixelAt, RowPixels, Window, Tag, ShowsGlyph;
      var fg := new Byte[2][color % 256, color / 256];
      var bg := new Byte[2][bgcolor % 256, bgcolor / 256];
      ghost var pic := Glyph(font, ch, HostPixel(color), HostPixel(bgcolor));
      ghost var w, h: nat := font.width, font.height;
      BoxShowsGlyph(font, ch, pic.fg, pic.bg);
      SetAddrWindow(x, y, ToU16(x as int + font.width as int - 1), ToU16(y as int + font.height as int - 1));
      GpioData();
      ghost var base := Stream();
      NoPixels(pic.fg);
      assert Repeat(pic.fg, 0) == BoxPixels(pic, w, h, 0);
      for i := 0 to font.height
        invariant Valid() && dc && Stream() == base + Pixels(BoxPixels(pic, w, h, i))
        invariant fg[..] == [pic.fg.first, pic.fg.second] && bg[..] == [pic.bg.first, pic.bg.second]
      {
        DrawRow(ch, i, font, fg, bg, pic, BoxPixels(pic, w, h, i), base);
      }
      FlushBuff();
      TagNothing(true, old(buf[..]));
      assert old(buf[..])[..0] == old(buf[..0]);
    }

    /** A character drawn right after a rectangle: the rectangle's last pixels go into the character's window
        first, so that the glyph appears shifted by their number, around the window's end. */
    method FillThenDrawChar(xs: U16, ys: U16, xe: U16, ye: U16, fill: U16,
                            x: U16, y: U16, ch: int, font: Font, color: U16, bgcolor: U16)
      requires Valid() && pt == 0 && xs <= xe && ys <= ye && Area(xs, ys, xe, ye) * 2 < 0x8000_0000
      requires HasGlyph(font, ch) && TextFits(x, y, [ch], font)
      modifies buf, this`dc, this`isdata, this`pt, this`wire, this`sizes
      ensures Valid() && pt == 0
      ensures var n := Area(xs, ys, xe, ye);
        forall p: Panel :: Feed(p, wire).fb
          == Shifted(PaintedFirst(Feed(p, old(wire)).fb, xs, ys, xe - xs + 1, ye - ys + 1, FillPixel(fill), FullChunks(n)),
                     x, y, Glyph(font, ch, HostPixel(color), HostPixel(bgcolor)), n % PER_BUF)
    {
      hide Tag, Pixels, Window, Area, Feed, PaintedFirst, Repeat, FullChunks, BoxPixels, Shifted, HasGlyph, PixelAt;
      hide Display.Stream;
      Fill(xs, ys, xe, ye, fill);
      ghost var filled := wire;
      ghost var pic := Glyph(font, ch, HostPixel(color), HostPixel(bgcolor));
      ghost var n := Area(xs, ys, xe, ye);
      DrawChar(x, y, ch, font, color, bgcolor);
      forall p: Panel ensures Feed(p, wire).fb
        == Shifted(PaintedFirst(Feed(p, old(wire)).fb, xs, ys, xe - xs + 1, ye - ys + 1, FillPixel(fill), FullChunks(n)),
                   x, y, pic, n % PER_BUF)
      {
        RepeatSize(FillPixel(fill), n % PER_BUF);
        ShiftedShows(p, filled, x, y, pic, Repeat(FillPixel(fill), n % PER_BUF));
      }
    }

    /** One box per character. Started with nothing staged, the panel afterwards shows the text box
        painted glyph by glyph and every other pixel as it was, wherever the 1152-byte chunks end. Pixels
        already staged shift the first character in its box, and only that. */
    method DrawString(x: U16, y: U16, text: seq<int>, font: Font, color: U16, bgcolor: U16)
      requires Valid() && HasGlyphs(font, text)
      modifies buf, this`dc, this`isdata, this`pt, this`wire, this`sizes
      ensures Valid() && pt == if text == [] then old(pt) else 0
      ensures text == [] ==> wire == old(wire)
      ensures old(pt) == 0 ==> wire == old(wire) + TextWire(x, y, text, font, HostPixel(color), HostPixel(bgcolor))
      ensures old(pt) == 0 && TextFits(x, y, text, font) ==>
        forall p: Panel :: Feed(p, wire).fb
          == PaintedText(Feed(p, old(wire)).fb, x, y, text, font, HostPixel(color), HostPixel(bgcolor))
      ensures old(pt) % 2 == 0 && text != [] && TextFits(x, y, text, font) ==>
        forall p: Panel :: Feed(p, wire).fb
          == ShiftedText(Feed(p, old(wire)).fb, x, y, text, font, HostPixel(color), HostPixel(bgcolor), old(pt) / 2)
    {
      hide TextWire, BoxWire, HasGlyph, Feed, PaintedText, ShiftedText, CharWire, Tag;
      hide ToU16, BoxPixels, Pixels, Window, HostPixel, TextFits, Display.Stream;
      var cx := x;
      ghost var fg, bg := HostPixel(color), HostPixel(bgcolor);
      ghost var staged, w: nat := buf[..pt], font.width;
      NoText(x, y, text, font, fg, bg);
      for i := 0 to |text|
        invariant Valid() && pt == (if i == 0 then old(pt) else 0) && HasGlyphs(font, text[..i])
        invariant cx == ToU16(x as int + i * font.width)
        invariant i == 0 ==> wire == old(wire) && buf[..pt] == staged
        invariant old(pt) == 0 ==> wire == old(wire) + TextWire(x, y, text[..i], font, fg, bg)
        invariant i > 0 ==> HasGlyphs(font, text[1..i]) && HasGlyph(font, text[0])
        invariant i > 0 ==> wire == old(wire) + CharWire(x, y, text[0], font, fg, bg, staged)
                                    + TextWire(ToU16(x as int + w), y, text[1..i], font, fg, bg)
      {
        OneCharMore(x, y, text, font, fg, bg, i, old(wire));
        if i > 0 {
          LaterChar(x, y, text, font, fg, bg, i, old(wire) + CharWire(x, y, text[0], font, fg, bg, staged));
        } else {
          CharWireIs(x, y, text[0], font, fg, bg, staged, wire);
          NoText(ToU16(x as int + w), y, text[1..], font, fg, bg);
          assert text[1..][..0] == text[1..1];
        }
        DrawChar(cx, y, text[i], font, color, bgcolor);
        cx := ToU16(cx as int + font.width as int);
      }
      assert text[..|text|] == text;
      if old(pt) == 0 && TextFits(x, y, text, font) {
        PlainText(old(wire), x, y, text, font, fg, bg);
      }
      if old(pt) % 2 == 0 && text != [] && TextFits(x, y, text, font) {
        assert text[1..|text|] == text[1..];
        StagedText(old(wire), x, y, text, font, fg, bg, staged);
      }
    }
  }

  const BLUE: U16 := 0x001F
  const WHITE: U16 := 0xFFFF
  const BLACK: U16 := 0x0000

  /** The console task's start-up calls before the text. The two rectangles of 241 * 241 pixels leave 386 pixels
      staged; Clear turns them and the whole screen black. */
  method DemoBackground(d: Display)
    requires d.Valid() && d.pt == 0
    modifies d, d.buf
    ensures d.Valid() && d.pt == 772
    ensures forall p: Panel | OnScreen(Feed(p, old(d.wire)).fb) ::
              Feed(p, d.wire).fb == Blank(Feed(p, old(d.wire)).fb, FillPixel(BLACK))
  {
    hide Tag, Pixels, Window, Feed, PaintedFirst, Repeat, FullChunks, Recoloured, Display.Stream, Blank, OnScreen;
    d.Fill(0, 0, 240, 240, BLUE);
    ghost var first := d.wire;
    d.Fill(0, 0, 240, 240, WHITE);
    ghost var second := d.wire;
    d.Clear(BLACK);
    forall p: Panel | OnScreen(Feed(p, old(d.wire)).fb)
      ensures Feed(p, d.wire).fb == Blank(Feed(p, old(d.wire)).fb, FillPixel(BLACK))
    {
      SameKeys(Feed(p, old(d.wire)).fb, 0, 0, 241, 241, FillPixel(BLUE), FullChunks(58081));
      SameKeys(Feed(p, first).fb, 0, 0, 241, 241, FillPixel(WHITE), FullChunks(58081 + 481));
      FillShows(p, second, 0, 0, W - 1, H - 1, BLACK, W * H);
      AllBlank(Feed(p, old(d.wire)).fb, Feed(p, second).fb, FillPixel(BLACK));
    }
  }

  /** The start-up screen: the staged pixels shift the first character of the text by 386 places around its
      box; everything else is as meant. */
  method DemoScreen(d: Display, text: seq<int>, font: Font)
    requires d.Valid() && d.pt == 0 && text != [] && HasGlyphs(font, text) && TextFits(0, 70, text, font)
    modifies d, d.buf
    ensures d.Valid() && d.pt == 0
    ensures forall p: Panel | OnScreen(Feed(p, old(d.wire)).fb) ::
              Feed(p, d.wire).fb == ShiftedText(Blank(Feed(p, old(d.wire)).fb, FillPixel(BLACK)), 0, 70, text, font,
                                                HostPixel(WHITE), HostPixel(BLACK), 386)
  {
    hide Feed, ShiftedText, TextFits, PaintedText, TextWire, HasGlyph, Blank, OnScreen;
    DemoBackground(d);
    d.DrawString(0, 70, text, font, WHITE, BLACK);
  }

  predicate OnScreen(fb: Frame) { forall k | k in fb :: InBox(k, 0, 0, W, H) }

  /** Every pixel in one colour. */
  function Blank(fb: Frame, px: Pixel): Frame { map k | k in fb :: px }

  lemma SameKeys(fb: Frame, x: int, y: int, w: nat, h: nat, px: Pixel, n: nat)
    ensures PaintedFirst(fb, x, y, w, h, px, n).Keys == fb.Keys
  {
  }

  lemma AllBlank(fb: Frame, now: Frame, px: Pixel)
    requires OnScreen(fb) && now.Keys == fb.Keys
    ensures PaintedFirst(now, 0, 0, W, H, px, W * H) == Blank(fb, px)
  {
    var l, r := PaintedFirst(now, 0, 0, W, H, px, W * H), Blank(fb, px);
    forall k | k in fb ensures l[k] == r[k] {
      PlaceInRange(k, 0, 0, W, H);
    }
  }

  predicate TextFits(x: U16, y: U16, text: seq<int>, font: Font) {
    && font.width >= 1 && font.height >= 1
    && x as int + |text| * font.width <= W && y as int + font.height as int <= H
  }

  lemma NoText(x: U16, y: U16, text: seq<int>, font: Font, fg: Pixel, bg: Pixel)
    ensures HasGlyphs(font, text[..0]) && TextWire(x, y, text[..0], font, fg, bg) == []
    ensures ToU16(x as int + 0 * font.width) == x
  {
  }

  lemma OneCharMore(x: U16, y: U16, text: seq<int>, font: Font, fg: Pixel, bg: Pixel, i: nat, base: seq<WireByte>)
    requires i < |text| && HasGlyphs(font, text)
    ensures var cx := ToU16(x as int + i * font.width);
      && HasGlyphs(font, text[..i]) && HasGlyphs(font, text[..i + 1])
      && HasGlyph(font, text[i]) && Covers(Glyph(font, text[i], fg, bg), font.width, font.height)
      && base + TextWire(x, y, text[..i + 1], font, fg, bg)
         == base + TextWire(x, y, text[..i], font, fg, bg)
            + BoxWire(cx, y, font.width, font.height, Glyph(font, text[i], fg, bg))
      && ToU16(cx as int + font.width as int) == ToU16(x as int + (i + 1) * font.width)
  {
    hide HasGlyph, BoxWire;
    assert text[..i + 1][..i] == text[..i];
    var n, w: nat := i * font.width, font.width;
    assert (i + 1) * font.width == n + w;
    WrapAdd(x as int + n, w);
  }

  /** What a character puts on the wire when these bytes are staged. */
  function CharWire(x: U16, y: U16, ch: int, font: Font, fg: Pixel, bg: Pixel, staged: seq<Byte>): seq<WireByte>
    requires HasGlyph(font, ch)
  {
    Window(x, y, ToU16(x as int + font.width as int - 1), ToU16(y as int + font.height as int - 1))
    + Tag(true, staged) + Pixels(BoxPixels(Glyph(font, ch, fg, bg), font.width, font.height, font.height))
  }

  lemma CharWireIs(x: U16, y: U16, ch: int, font: Font, fg: Pixel, bg: Pixel, staged: seq<Byte>, base: seq<WireByte>)
    requires HasGlyph(font, ch)
    ensures base + CharWire(x, y, ch, font, fg, bg, staged)
         == base + Window(x, y, ToU16(x as int + font.width as int - 1), ToU16(y as int + font.height as int - 1))
            + Tag(true, staged) + Pixels(BoxPixels(Glyph(font, ch, fg, bg), font.width, font.height, font.height))
  {
    hide Window, Tag, Pixels, BoxPixels, HasGlyph;
  }

  lemma LaterChar(x: U16, y: U16, text: seq<int>, font: Font, fg: Pixel, bg: Pixel, i: nat, base: seq<WireByte>)
    requires 0 < i < |text| && HasGlyphs(font, text)
    ensures var x1 := ToU16(x as int + font.width as int);
      && HasGlyphs(font, text[1..i]) && HasGlyphs(font, text[1..i + 1])
      && HasGlyph(font, text[i]) && Covers(Glyph(font, text[i], fg, bg), font.width, font.height)
      && base + TextWire(x1, y, text[1..i + 1], font, fg, bg)
         == base + TextWire(x1, y, text[1..i], font, fg, bg)
            + BoxWire(ToU16(x as int + i * font.width), y, font.width, font.height, Glyph(font, text[i], fg, bg))
  {
    hide HasGlyph, BoxWire, TextWire, ToU16;
    var rest := text[1..];
    assert rest[..i] == text[1..i + 1] && rest[..i - 1] == text[1..i] && rest[i - 1] == text[i];
    NextColumn(x, font.width, i);
    OneCharMore(ToU16(x as int + font.width as int), y, rest, font, fg, bg, i - 1, base);
  }

  lemma NextColumn(x: U16, w: nat, i: nat)
    requires i > 0
    ensures ToU16(ToU16(x as int + w) as int + (i - 1) * w) == ToU16(x as int + i * w)
  {
    var n := (i - 1) * w;
    assert i * w == n + w && n >= 0;
    WrapAdd(x as int + w, n);
  }

  /** The pixels that an even number of bytes stand for. */
  function BytePixels(bytes: seq<Byte>): (ps: seq<Pixel>)
    requires |bytes| % 2 == 0
    ensures |ps| == |bytes| / 2
  {
    if bytes == [] then [] else BytePixels(bytes[..|bytes| - 2]) + [Pixel(bytes[|bytes| - 2], bytes[|bytes| - 1])]
  }

  lemma BytePixelsStep(bytes: seq<Byte>)
    requires |bytes| % 2 == 0
    ensures bytes == [] ==> BytePixels(bytes) == []
    ensures bytes != [] ==> |bytes| >= 2
    ensures bytes != [] ==>
      BytePixels(bytes) == BytePixels(bytes[..|bytes| - 2]) + [Pixel(bytes[|bytes| - 2], bytes[|bytes| - 1])]
  {
  }

  lemma {:induction false} BytesOfPixels(bytes: seq<Byte>)
    requires |bytes| % 2 == 0
    ensures PixelBytes(BytePixels(bytes)) == bytes
  {
    hide PixelBytes, BytePixels;
    BytePixelsStep(bytes);
    if bytes != [] {
      var front, px := bytes[..|bytes| - 2], Pixel(bytes[|bytes| - 2], bytes[|bytes| - 1]);
      BytesOfPixels(front);
      OnePixelBytes(BytePixels(front), px);
      assert bytes == front + [px.first, px.second];
    } else {
      NoBytes();
    }
  }

  /** The first character shifted in its box, the others in place. */
  ghost function ShiftedText(fb: Frame, x: int, y: int, text: seq<int>, font: Font, fg: Pixel, bg: Pixel, shift: nat): Frame
    requires text != [] && HasGlyphs(font, text) && font.width >= 1 && font.height >= 1
  {
    PaintedText(Shifted(fb, x, y, Glyph(font, text[0], fg, bg), shift), x + font.width, y, text[1..], font, fg, bg)
  }

  lemma PlainText(before: seq<WireByte>, x: U16, y: U16, text: seq<int>, font: Font, fg: Pixel, bg: Pixel)
    requires HasGlyphs(font, text) && TextFits(x, y, text, font)
    ensures forall p: Panel ::
              Feed(p, before + TextWire(x, y, text, font, fg, bg)).fb
              == PaintedText(Feed(p, before).fb, x, y, text, font, fg, bg)
  {
    hide Feed, PaintedText, TextWire, HasGlyph;
    forall p: Panel ensures Feed(p, before + TextWire(x, y, text, font, fg, bg)).fb
                         == PaintedText(Feed(p, before).fb, x, y, text, font, fg, bg)
    {
      FeedAppend(p, before, TextWire(x, y, text, font, fg, bg));
      FeedText(Feed(p, before), x, y, text, font, fg, bg);
    }
  }

  lemma StagedText(before: seq<WireByte>, x: U16, y: U16, text: seq<int>, font: Font, fg: Pixel, bg: Pixel,
                   staged: seq<Byte>)
    requires text != [] && HasGlyphs(font, text) && TextFits(x, y, text, font) && |staged| % 2 == 0
    ensures var wire := before + CharWire(x, y, text[0], font, fg, bg, staged)
                        + TextWire(ToU16(x as int + font.width as int), y, text[1..], font, fg, bg);
      forall p: Panel :: Feed(p, wire).fb == ShiftedText(Feed(p, before).fb, x, y, text, font, fg, bg, |staged| / 2)
  {
    hide Feed, Shifted, PaintedText, TextWire, CharWire, HasGlyph, TextFits;
    FitsInParts(x, y, text, font);
    var first := CharWire(x, y, text[0], font, fg, bg, staged);
    var rest := TextWire(ToU16(x as int + font.width as int), y, text[1..], font, fg, bg);
    forall p: Panel
      ensures Feed(p, before + first + rest).fb == ShiftedText(Feed(p, before).fb, x, y, text, font, fg, bg, |staged| / 2)
    {
      FirstChar(p, before, x, y, text[0], font, fg, bg, staged);
      FeedAppend(p, before + first, rest);
      FeedText(Feed(p, before + first), ToU16(x as int + font.width as int), y, text[1..], font, fg, bg);
    }
  }

  lemma FitsInParts(x: U16, y: U16, text: seq<int>, font: Font)
    requires text != [] && TextFits(x, y, text, font)
    ensures TextFits(x, y, [text[0]], font) && ToU16(x as int + font.width as int) == x as int + font.width as int
    ensures x as int + font.width as int + |text[1..]| * font.width <= 0x1_0000 && y as int + font.height <= 0x1_0000
    ensures font.width >= 1 && font.height >= 1
  {
    LastColumn(x, |text|, font.width);
    assert |text[1..]| == |text| - 1 && |[text[0]]| * font.width == font.width;
  }

  lemma FirstChar(p: Panel, before: seq<WireByte>, x: U16, y: U16, ch: int, font: Font, fg: Pixel, bg: Pixel,
                  staged: seq<Byte>)
    requires HasGlyph(font, ch) && TextFits(x, y, [ch], font) && |staged| % 2 == 0
    ensures Feed(p, before + CharWire(x, y, ch, font, fg, bg, staged)).fb
         == Shifted(Feed(p, before).fb, x, y, Glyph(font, ch, fg, bg), |staged| / 2)
  {
    hide Feed, Shifted, CharWire, HasGlyph, BoxPixels, Pixels, Window, Tag;
    CharWireIs(x, y, ch, font, fg, bg, staged, before);
    BytesOfPixels(staged);
    PixelsAre(BytePixels(staged));
    ShiftedShows(p, before, x, y, Glyph(font, ch, fg, bg), BytePixels(staged));
  }

  lemma WrapAdd(a: nat, b: nat)
    ensures ToU16(ToU16(a) as int + b) == ToU16(a + b)
  {
  }

  // ---- what Fill and Clear show

  // ---- the staging buffer as its own source

  predicate Striped(bytes: seq<Byte>) { forall i | 0 <= i < |bytes| - 2 :: bytes[i] == bytes[i + 2] }

  /** Queuing the buffer's own first bytes behind pt staged ones overwrites none of them with a different byte. */
  ghost predicate Harmless(pt: nat, bytes: seq<Byte>) {
    pt == 0 || (pt % 2 == 0 && Striped(bytes))
  }

  lemma {:induction false} StripedAt(bytes: seq<Byte>, a: nat, b: nat)
    requires Striped(bytes) && a <= b < |bytes| && (b - a) % 2 == 0
    ensures bytes[a] == bytes[b]
    decreases b - a
  {
    if a < b {
      StripedAt(bytes, a, b - 2);
    }
  }

  /** The byte about to be overwritten is the same as the one about to be copied. */
  lemma SameByte(bytes: seq<Byte>, staged: nat, pt: nat, k: nat, i: nat)
    requires Harmless(staged, bytes) && Chunked(staged + i, pt, k) && |bytes| <= BUF_SIZE
    requires i < |bytes| && pt < |bytes|
    ensures bytes[pt] == bytes[i]
  {
    hide Striped;
    SameParity(staged, pt, k, i);
    if staged == 0 {
      assert k == 0;
    } else if pt <= i {
      StripedAt(bytes, pt, i);
    } else {
      StripedAt(bytes, i, pt);
    }
  }

  lemma SameParity(staged: nat, pt: nat, k: nat, i: nat)
    requires Chunked(staged + i, pt, k) && staged % 2 == 0
    ensures (i - pt) % 2 == 0 && (pt - i) % 2 == 0
  {
    var h := k * PER_BUF - staged / 2;
    assert k * BUF_SIZE == 2 * (k * PER_BUF);
    assert i - pt == 2 * h;
  }

  lemma Unchanged(was: seq<Byte>, at: nat, b: Byte, bytes: seq<Byte>)
    requires at < |was| && |bytes| <= |was| && was[..|bytes|] == bytes && (at < |bytes| ==> bytes[at] == b)
    ensures was[at := b][..|bytes|] == bytes
  {
  }

  lemma {:induction false} SolidAt(px: Pixel, n: nat)
    ensures |PixelBytes(Repeat(px, n))| == 2 * n
    ensures forall i | 0 <= i < 2 * n :: PixelBytes(Repeat(px, n))[i] == if i % 2 == 0 then px.first else px.second
  {
    if n > 0 {
      SolidAt(px, n - 1);
      RepeatMore(px, n - 1, 1);
    } else {
      assert Repeat(px, 0) == [];
    }
  }

  lemma SolidIsHarmless(pt: nat, px: Pixel, n: nat)
    requires pt % 2 == 0
    ensures Harmless(pt, PixelBytes(Repeat(px, n)))
  {
    SolidAt(px, n);
  }

  lemma ColouredPrefix(b: seq<Byte>, px: Pixel, n: nat, m: nat)
    requires b == PixelBytes(Repeat(px, n)) && m <= n
    ensures |b| == 2 * n && b[..2 * m] == PixelBytes(Repeat(px, m))
  {
    SolidAt(px, n);
    SolidAt(px, m);
  }

  /** Staged bytes after the colour was written over the first n pixels of the buffer. */
  function Recoloured(staged: seq<Byte>, px: Pixel, n: nat): seq<Byte> {
    var m := Min(|staged| / 2, n);
    PixelBytes(Repeat(px, m)) + staged[2 * m..]
  }

  lemma Overwritten(was: seq<Byte>, now: seq<Byte>, px: Pixel, n: nat, pt: nat)
    requires |was| == |now| && 2 * n <= |was| && pt <= |was| && pt % 2 == 0
    requires now[..2 * n] == PixelBytes(Repeat(px, n)) && now[2 * n..] == was[2 * n..]
    ensures now[..pt] == Recoloured(was[..pt], px, n)
  {
    hide PixelBytes, Repeat;
    if pt / 2 <= n {
      ColouredPrefix(now[..2 * n], px, n, pt / 2);
      assert now[..pt] == now[..2 * n][..pt];
    } else {
      assert now[2 * n..pt] == now[2 * n..][..pt - 2 * n] == was[2 * n..][..pt - 2 * n] == was[..pt][2 * n..];
      assert now[..pt] == now[..2 * n] + now[2 * n..pt];
    }
  }

  lemma AlreadyColoured(b: seq<Byte>, px: Pixel, n: nat, pt: nat)
    requires b == PixelBytes(Repeat(px, PER_BUF)) && n <= PER_BUF && pt <= BUF_SIZE && pt % 2 == 0
    ensures |b| == BUF_SIZE && Recoloured(b[..pt], px, n) == b[..pt]
  {
    hide PixelBytes, Repeat;
    var m := Min(pt / 2, n);
    ColouredPrefix(b, px, PER_BUF, m);
    assert b[..pt] == b[..2 * m] + b[..pt][2 * m..];
  }

  lemma AllColoured(staged: seq<Byte>, px: Pixel, n: nat, count: nat, base: seq<WireByte>)
    requires |staged| % 2 == 0 && |staged| / 2 <= n
    ensures base + Tag(true, Recoloured(staged, px, n)) + Pixels(Repeat(px, count))
         == base + Pixels(Repeat(px, count + |staged| / 2))
  {
    hide Tag, PixelBytes, Repeat;
    var m := |staged| / 2;
    assert staged[2 * m..] == [] && Recoloured(staged, px, n) == PixelBytes(Repeat(px, m));
    MoreOf(px, m, count, base);
    assert m + count == count + m;
  }

  function Area(xs: U16, ys: U16, xe: U16, ye: U16): nat
    requires xs <= xe && ys <= ye
  {
    (xe - xs + 1) * (ye - ys + 1)
  }

  lemma AreaIs(xs: U16, ys: U16, xe: U16, ye: U16)
    requires xs <= xe && ys <= ye
    ensures (xe - xs + 1) * (ye - ys + 1) == Area(xs, ys, xe, ye)
  {
  }

  lemma NothingStaged(base: seq<WireByte>, px: Pixel, n: nat)
    ensures base + Tag(true, Recoloured([], px, Min(n, PER_BUF))) + Pixels(Repeat(px, n)) == base + Pixels(Repeat(px, n))
  {
    AllColoured([], px, Min(n, PER_BUF), n, base);
  }

  /** As many pixels as the rectangle has places reach all of them. */
  lemma AllPlaces(fb: Frame, xs: U16, ys: U16, xe: U16, ye: U16, px: Pixel)
    requires xs <= xe && ys <= ye
    ensures PaintedFirst(fb, xs, ys, xe - xs + 1, ye - ys + 1, px, Area(xs, ys, xe, ye))
         == map k | k in fb :: if xs <= k.0 <= xe && ys <= k.1 <= ye then px else fb[k]
  {
    var w, h: nat := xe - xs + 1, ye - ys + 1;
    forall k | k in fb && InBox(k, xs, ys, w, h) ensures Place(k, xs, ys, w) < w * h {
      PlaceInRange(k, xs, ys, w, h);
    }
    hide Place;
  }

  lemma PixelsAre(ps: seq<Pixel>)
    ensures Pixels(ps) == Tag(true, PixelBytes(ps))
  {
  }

  lemma ScreenChunks(staged: nat)
    requires staged < PER_BUF
    ensures FullChunks(staged + W * H) == W * H && (staged + W * H) % PER_BUF == staged
    ensures 2 * (staged + W * H) % BUF_SIZE == 2 * staged
  {
  }

  /** How many of n pixels fill whole staging buffers. */
  function FullChunks(n: nat): nat { n / PER_BUF * PER_BUF }

  /** The frame with the first n places of a box, in row-major order, painted in one colour. */
  function PaintedFirst(fb: Frame, x: int, y: int, w: nat, h: nat, px: Pixel, n: nat): Frame {
    map k | k in fb :: if InBox(k, x, y, w, h) && Place(k, x, y, w) < n then px else fb[k]
  }

  /** That is the whole box if and only if every visible place behind them had the colour already. */
  lemma FirstIsAll(fb: Frame, x: int, y: int, w: nat, h: nat, px: Pixel, n: nat)
    ensures PaintedFirst(fb, x, y, w, h, px, n) == PaintedBox(fb, x, y, w, h, Solid(px))
       <==> forall k | k in fb && InBox(k, x, y, w, h) && Place(k, x, y, w) >= n :: fb[k] == px
  {
    hide InBox, Place;
    var l, r := PaintedFirst(fb, x, y, w, h, px, n), PaintedBox(fb, x, y, w, h, Solid(px));
    assert InBoxSolid(fb, x, y, w, h, px, r) by { SolidPixels(fb, x, y, w, h, px); }
    if l == r {
      forall k | k in fb && InBox(k, x, y, w, h) && Place(k, x, y, w) >= n ensures fb[k] == px {
        assert l[k] == fb[k] && r[k] == px;
      }
    }
    if forall k | k in fb && InBox(k, x, y, w, h) && Place(k, x, y, w) >= n :: fb[k] == px {
      assert forall k | k in fb :: l[k] == r[k];
    }
  }

  ghost predicate InBoxSolid(fb: Frame, x: int, y: int, w: nat, h: nat, px: Pixel, r: Frame) {
    r.Keys == fb.Keys && forall k | k in fb :: r[k] == if InBox(k, x, y, w, h) then px else fb[k]
  }

  lemma SolidPixels(fb: Frame, x: int, y: int, w: nat, h: nat, px: Pixel)
    ensures InBoxSolid(fb, x, y, w, h, px, PaintedBox(fb, x, y, w, h, Solid(px)))
  {
  }

  lemma {:induction false} ShownSolid(px: Pixel, n: nat, size: nat, i: nat)
    requires i < size
    ensures Shown(Repeat(px, n), size, i) == if i < n then Some(px) else None
  {
    if n > 0 {
      assert Repeat(px, n)[..n - 1] == Repeat(px, n - 1);
      ShownSolid(px, n - 1, size, i);
      if i == n - 1 {
        CB.DivModUnique(i, size, 0, i);
      } else if n - 1 < size {
        CB.DivModUnique(n - 1, size, 0, n - 1);
      }
    }
  }

  lemma StreamedFirst(fb: Frame, x: int, y: int, w: nat, h: nat, px: Pixel, n: nat)
    requires w >= 1 && h >= 1
    ensures Streamed(fb, x, y, w, h, Repeat(px, n)) == PaintedFirst(fb, x, y, w, h, px, n)
  {
    hide Shown, Size, Place, InBox, Repeat;
    forall k | k in fb && InBox(k, x, y, w, h)
      ensures Shown(Repeat(px, n), Size(w, h), Place(k, x, y, w)) == if Place(k, x, y, w) < n then Some(px) else None
    {
      PlaceInRange(k, x, y, w, h);
      ShownSolid(px, n, Size(w, h), Place(k, x, y, w));
    }
  }

  /** n of the colour's pixels, sent into a rectangle, paint its first n places and nothing else. */
  lemma FillPaints(p: Panel, xs: U16, ys: U16, xe: U16, ye: U16, color: U16, n: nat)
    requires xs <= xe && ys <= ye
    ensures Feed(p, Window(xs, ys, xe, ye) + Pixels(Repeat(FillPixel(color), n))).fb
         == PaintedFirst(p.fb, xs, ys, xe - xs + 1, ye - ys + 1, FillPixel(color), n)
  {
    hide Feed, Window, Pixels, PaintedFirst, Streamed, Repeat;
    var w, h: nat := xe - xs + 1, ye - ys + 1;
    FeedWindowStream(p, xs, ys, w, h, Repeat(FillPixel(color), n));
    StreamedFirst(p.fb, xs, ys, w, h, FillPixel(color), n);
  }

  lemma FillShows(p: Panel, before: seq<WireByte>, xs: U16, ys: U16, xe: U16, ye: U16, color: U16, n: nat)
    requires xs <= xe && ys <= ye
    ensures Feed(p, before + Window(xs, ys, xe, ye) + Pixels(Repeat(FillPixel(color), n))).fb
         == PaintedFirst(Feed(p, before).fb, xs, ys, xe - xs + 1, ye - ys + 1, FillPixel(color), n)
  {
    hide Feed, Window, Pixels, PaintedFirst, Repeat;
    var win, ps := Window(xs, ys, xe, ye), Pixels(Repeat(FillPixel(color), n));
    FillPaints(Feed(p, before), xs, ys, xe, ye, color, n);
    FeedAppend(p, before, win + ps);
    assert before + (win + ps) == before + win + ps;
  }

  /** The demo's own first call, Fill(0, 0, 240, 240, c): 241 * 241 is 100 buffers and 481 pixels, so the last
      visible row keeps its old colour from column 1 on. */
  lemma DemoFillUnfinished(fb: Frame, px: Pixel)
    requires (1, 239) in fb && fb[(1, 239)] != px
    ensures 241 * 241 == 100 * PER_BUF + 481
    ensures var shown := PaintedFirst(fb, 0, 0, 241, 241, px, FullChunks(241 * 241));
      shown[(1, 239)] == fb[(1, 239)] && shown != PaintedBox(fb, 0, 0, 241, 241, Solid(px))
  {
    assert 241 * 241 == 58081 && FullChunks(58081) == 57600;
    var k := (1, 239);
    assert InBox(k, 0, 0, 241, 241) && Place(k, 0, 0, 241) == 57600;
    FirstIsAll(fb, 0, 0, 241, 241, px, 57600);
  }

  lemma {:induction false} PixelsSize(ps: seq<Pixel>)
    ensures |Pixels(ps)| == |PixelBytes(ps)| == 2 * |ps|
  {
    if ps != [] {
      PixelsSize(ps[..|ps| - 1]);
    }
  }

  /** Of count pixels, what is staged is the last count % 576 and the wire has the others. */
  lemma SentPart(wire: seq<WireByte>, staged: seq<Byte>, base: seq<WireByte>, px: Pixel, count: nat)
    requires wire + Tag(true, staged) == base + Pixels(Repeat(px, count)) && |staged| == 2 * count % BUF_SIZE
    ensures wire == base + Pixels(Repeat(px, FullChunks(count)))
    ensures Tag(true, staged) == Pixels(Repeat(px, count % PER_BUF))
  {
    hide Tag, Pixels, Repeat;
    var sent, rest := FullChunks(count), count % PER_BUF;
    assert count == sent + rest && 2 * count % BUF_SIZE == 2 * rest;
    MoreOf(px, sent, rest, base);
    PixelsSize(Repeat(px, rest));
    TagLength(true, staged);
    var l, r := wire + Tag(true, staged), base + Pixels(Repeat(px, sent)) + Pixels(Repeat(px, rest));
    assert l[..|wire|] == r[..|wire|] && l[|wire|..] == r[|wire|..];
  }

  // ---- a glyph behind a rectangle's left-over pixels

  ghost predicate IsGlyph(pic: Picture) {
    pic.Glyph? && Covers(pic, pic.font.width, pic.font.height) && pic.font.width >= 1 && pic.font.height >= 1
  }

  /** The pixels of a glyph in row-major order. */
  ghost function GlyphPixels(pic: Picture): (ps: seq<Pixel>)
    requires IsGlyph(pic)
    ensures |ps| == Size(pic.font.width, pic.font.height)
  {
    BoxSize(pic, pic.font.width, pic.font.height, pic.font.height);
    BoxPixels(pic, pic.font.width, pic.font.height, pic.font.height)
  }

  /** The frame with the glyph in its box, each pixel shift places further on, around the end of the box. */
  ghost function Shifted(fb: Frame, x: int, y: int, pic: Picture, shift: nat): Frame
    requires IsGlyph(pic)
  {
    var w, h := pic.font.width as int, pic.font.height as int;
    map k | k in fb :: if InBox(k, x, y, w, h) then GlyphPixels(pic)[(Place(k, x, y, w) - shift) % Size(w, h)] else fb[k]
  }

  lemma Unshift(i: int, shift: nat, size: nat)
    requires 0 <= i < size
    ensures (shift + (i - shift) % size) % size == i
  {
    var q, r := (i - shift) / size, (i - shift) % size;
    assert i - shift == q * size + r;
    assert shift + r == (-q) * size + i by { assert (-q) * size == -(q * size); }
    CB.DivModUnique(shift + r, size, -q, i);
  }

  lemma ShownShifted(ps: seq<Pixel>, box: seq<Pixel>, i: nat)
    requires i < |box|
    ensures Shown(ps + box, |box|, i) == Some(box[(i - |ps|) % |box|])
  {
    hide Shown;
    var n, size := |ps|, |box|;
    var j := (i - n) % size;
    Unshift(i, n, size);
    ShownLast(ps, box, size, j);
  }

  lemma StreamedShift(fb: Frame, x: int, y: int, pic: Picture, ps: seq<Pixel>)
    requires IsGlyph(pic)
    ensures Streamed(fb, x, y, pic.font.width, pic.font.height, ps + GlyphPixels(pic)) == Shifted(fb, x, y, pic, |ps|)
  {
    hide Shown, Size, Place, HasGlyph, InBox, GlyphPixels;
    var w, h: nat := pic.font.width, pic.font.height;
    var box := GlyphPixels(pic);
    forall k | k in fb && InBox(k, x, y, w, h)
      ensures 0 <= Place(k, x, y, w) < |box|
      ensures Shown(ps + box, |box|, Place(k, x, y, w)) == Some(box[(Place(k, x, y, w) - |ps|) % |box|])
    {
      PlaceInRange(k, x, y, w, h);
      ShownShifted(ps, box, Place(k, x, y, w));
    }
  }

  /** With nothing left over, that is the glyph in its place. */
  lemma NoShift(fb: Frame, x: int, y: int, pic: Picture)
    requires IsGlyph(pic)
    ensures Shifted(fb, x, y, pic, 0) == PaintedBox(fb, x, y, pic.font.width, pic.font.height, pic)
  {
    hide Shifted, PaintedBox, Streamed, BoxPixels, HasGlyph;
    StreamedShift(fb, x, y, pic, []);
    StreamedBox(fb, x, y, pic.font.width, pic.font.height, pic);
    assert [] + GlyphPixels(pic) == BoxPixels(pic, pic.font.width, pic.font.height, pic.font.height);
  }

  lemma ShiftedShows(p: Panel, before: seq<WireByte>, x: U16, y: U16, pic: Picture, left: seq<Pixel>)
    requires IsGlyph(pic) && TextFits(x, y, [pic.ch], pic.font)
    ensures var w, h: nat := pic.font.width, pic.font.height;
      Feed(p, before + Window(x, y, ToU16(x as int + w - 1), ToU16(y as int + h - 1))
              + Pixels(left) + Pixels(BoxPixels(pic, w, h, h))).fb
      == Shifted(Feed(p, before).fb, x, y, pic, |left|)
  {
    hide Feed, Window, Pixels, Shifted, BoxPixels, HasGlyph, Streamed;
    var w, h: nat := pic.font.width, pic.font.height;
    assert GlyphPixels(pic) == BoxPixels(pic, w, h, h);
    var box := BoxPixels(pic, w, h, h);
    var win := Window(x, y, ToU16(x as int + w - 1), ToU16(y as int + h - 1));
    PixelsAppend(left, box);
    FeedWindowStream(Feed(p, before), x, y, w, h, left + box);
    StreamedShift(Feed(p, before).fb, x, y, pic, left);
    FeedAppend(p, before, win + Pixels(left + box));
    assert before + (win + Pixels(left + box)) == before + win + Pixels(left) + Pixels(box);
  }

  lemma RepeatSize(px: Pixel, n: nat)
    ensures |Repeat(px, n)| == n
  {
  }

  /** Clear makes every pixel of the panel the given colour. */
  lemma ClearPaints(p: Panel, color: U16, k: (int, int))
    requires k in p.fb && 0 <= k.0 < W && 0 <= k.1 < H
    ensures var fb := Feed(p, Window(0, 0, W - 1, H - 1) + Pixels(Repeat(FillPixel(color), W * H))).fb;
            k in fb && fb[k] == FillPixel(color)
  {
    hide Feed, Window, Pixels, Repeat;
    FillPaints(p, 0, 0, W - 1, H - 1, color, W * H);
    PlaceInRange(k, 0, 0, W, H);
  }

  /** A colour drawn by DrawChar is the one that Fill shows exactly when its two bytes are equal. */
  lemma ByteOrders(color: U16)
    ensures FillPixel(color).first * 256 + FillPixel(color).second == color
    ensures HostPixel(color).first + HostPixel(color).second * 256 == color
    ensures HostPixel(color) == FillPixel(color) <==> color / 256 == color % 256
  {
  }

  /** Blue, for example. */
  lemma BlueDiffers()
    ensures FillPixel(0x001F) == Pixel(0x00, 0x1F) && HostPixel(0x001F) == Pixel(0x1F, 0x00)
    ensures HostPixel(0x001F) != FillPixel(0x001F)
  {
  }

  /** Columns covered by the first j bytes of a glyph row. */
  function ColumnsDone(width: Byte, j: nat): (n: nat)
    ensures n <= width
  {
    if 8 * j < width then 8 * j else width
  }

  /** The bit that the driver tests for pixel 8j + k is the glyph bit of that pixel, in both bit orders. */
  lemma BitIsPixel(pic: Picture, i: nat, j: nat, k: nat, b: bv8)
    requires pic.Glyph? && Covers(pic, pic.font.width, pic.font.height)
    requires i < pic.font.height && k < 8 && 8 * j + k < pic.font.width
    requires b == RowOf(pic.font, pic.ch, i)[j]
    ensures PixelAt(pic, pic.font.width, pic.font.height, i, 8 * j + k)
         == if (if pic.font.order == 0 then (b << k) & 0x80 != 0 else b & (1 << k) != 0) then pic.fg else pic.bg
  {
    hide HasGlyph, RowOf, Bit;
    TopBitTest(b, k);
    BottomBitTest(b, k);
    assert (8 * j + k) / 8 == j && (8 * j + k) % 8 == k;
  }

  lemma PixelShows(font: Font, ch: int, fg: Pixel, bg: Pixel, row: nat, col: nat)
    requires HasGlyph(font, ch) && row < font.height && col < font.width
    ensures ShowsBit(PixelAt(Glyph(font, ch, fg, bg), font.width, font.height, row, col), font, ch, fg, bg, row, col)
  {
    hide HasGlyph, RowOf, Bit;
    ByteInBlock(font, ch, row, col / 8);
  }

  lemma ByteInBlock(font: Font, ch: int, row: nat, j: nat)
    requires HasGlyph(font, ch) && row < font.height && j < RowBytes(font.width)
    ensures var b := (font.width + 7) / 8;
      var at := (ch - 32) * (font.height * b) + row * b + j;
      0 <= at < |font.data| && font.data[at] == RowOf(font, ch, row)[j]
  {
    hide HasGlyph, RowOf;
    RowInTable(font, ch, row, j);
    Regroup(ch - 32, font.height, row, RowBytes(font.width));
  }

  lemma BoxShowsGlyph(font: Font, ch: int, fg: Pixel, bg: Pixel)
    requires HasGlyph(font, ch)
    ensures ShowsGlyph(BoxPixels(Glyph(font, ch, fg, bg), font.width, font.height, font.height), font, ch, fg, bg)
  {
    hide HasGlyph, ShowsBit, BoxPixels, PixelAt;
    var pic := Glyph(font, ch, fg, bg);
    var ps := BoxPixels(pic, font.width, font.height, font.height);
    BoxSize(pic, font.width, font.height, font.height);
    forall row: nat, col: nat | row < font.height && col < font.width
      ensures ShowsPlace(ps, font, ch, fg, bg, row, col)
    {
      var i := row * font.width + col;
      assert i >= 0;
      BoxPixelsAt(pic, font.width, font.height, font.height, row, col, i);
      PixelShows(font, ch, fg, bg, row, col);
    }
  }

  /** Column r of the q-th character of a text box shows the bits of that column in the character's block of the
      table. */
  lemma TextShowsGlyphs(text: seq<int>, font: Font, fg: Pixel, bg: Pixel, q: nat, r: nat, dx: nat, dy: nat)
    requires HasGlyphs(font, text) && q < |text| && r < font.width && dy < font.height && dx == q * font.width + r
    ensures dx < |text| * font.width
    ensures ShowsBit(TextPixel(text, font, fg, bg, dx, dy), font, text[q], fg, bg, dy, r)
  {
    hide HasGlyph, ShowsBit, PixelAt;
    InText(|text|, font.width, q, r);
    CB.DivModUnique(dx, font.width, q, r);
    PixelShows(font, text[q], fg, bg, dy, r);
  }

  lemma InText(n: nat, w: nat, q: nat, r: nat)
    requires q < n && r < w
    ensures q * w + r < n * w
  {
    assert n * w == q * w + (n - q) * w;
    CB.Scale(n - q, w);
  }

  lemma OnePixelMore(base: seq<WireByte>, done: seq<Pixel>, px: Pixel)
    ensures base + Pixels(done) + Tag(true, [px.first, px.second]) == base + Pixels(done + [px])
  {
    PixelsAppend(done, [px]);
    PixelsAre([px]);
    OnePixelBytes([], px);
    NoBytes();
    hide PixelBytes, Tag, Pixels;
    assert [] + [px] == [px] && [] + [px.first, px.second] == [px.first, px.second];
  }

  lemma RepeatMore(px: Pixel, a: nat, b: nat)
    ensures Pixels(Repeat(px, a + b)) == Pixels(Repeat(px, a)) + Pixels(Repeat(px, b))
    ensures PixelBytes(Repeat(px, a + 1)) == PixelBytes(Repeat(px, a)) + [px.first, px.second]
  {
    assert Repeat(px, a + b) == Repeat(px, a) + Repeat(px, b);
    PixelsAppend(Repeat(px, a), Repeat(px, b));
    assert Repeat(px, a + 1)[..a] == Repeat(px, a);
  }

  /** total bytes are k full buffers and pt left over. */
  ghost predicate Chunked(total: nat, pt: nat, k: nat) {
    total == k * BUF_SIZE + pt && pt < BUF_SIZE
  }

  lemma StartChunks(pt: nat)
    requires pt < BUF_SIZE
    ensures Chunked(pt, pt, 0)
  {
  }

  lemma NoChunks(sizes: seq<nat>)
    ensures sizes == sizes + Repeat(BUF_SIZE, 0)
  {
  }

  lemma OneMoreChunk(sizes: seq<nat>, k: nat)
    ensures sizes + Repeat(BUF_SIZE, k) + [BUF_SIZE] == sizes + Repeat(BUF_SIZE, k + 1)
  {
    assert Repeat(BUF_SIZE, k) + [BUF_SIZE] == Repeat(BUF_SIZE, k + 1);
  }

  lemma NextChunk(total: nat, pt: nat, k: nat)
    requires Chunked(total, pt, k)
    ensures if pt + 1 == BUF_SIZE then Chunked(total + 1, 0, k + 1) else Chunked(total + 1, pt + 1, k)
  {
  }

  lemma ChunksAre(total: nat, pt: nat, k: nat)
    requires Chunked(total, pt, k)
    ensures k == total / BUF_SIZE && pt == total % BUF_SIZE
  {
  }

  lemma TagNothing(data: bool, bytes: seq<Byte>)
    ensures Tag(data, bytes[..0]) == []
  {
  }

  lemma TagOneMore(data: bool, bytes: seq<Byte>, i: nat)
    requires i < |bytes|
    ensures Tag(data, bytes[..i + 1]) == Tag(data, bytes[..i]) + Tag(data, [bytes[i]])
    ensures forall b :: |Tag(data, [b])| == 1
  {
    assert bytes[..i + 1] == bytes[..i] + [bytes[i]];
  }

  lemma WindowLength(x1: U16, y1: U16, x2: U16, y2: U16)
    ensures |Window(x1, y1, x2, y2)| == 11
  {
  }

  lemma TagLength(data: bool, bytes: seq<Byte>)
    ensures |Tag(data, bytes)| == |bytes|
  {
  }

  lemma NoPixels(px: Pixel)
    ensures Pixels(Repeat(px, 0)) == []
  {
    assert Repeat(px, 0) == [] && PixelBytes([]) == [] && Tag(true, []) == [];
  }

  lemma MoreOf(px: Pixel, a: nat, b: nat, base: seq<WireByte>)
    ensures base + Pixels(Repeat(px, a + b)) == base + Pixels(Repeat(px, a)) + Pixels(Repeat(px, b))
  {
    RepeatMore(px, a, b);
  }

  /** chunks full buffers are done, size bytes are next, and remain after them. */
  ghost predicate FillCounts(count: nat, chunks: nat, size: int, remain: int) {
    && 0 <= size <= BUF_SIZE && size % 2 == 0 && 0 <= remain && (remain > 0 ==> size == BUF_SIZE)
    && BUF_SIZE * chunks + size + remain == 2 * count
  }

  function NextSize(size: int, remain: int): int { if remain > BUF_SIZE then size else remain }

  lemma CountsStart(count: nat, size: int, remain: int)
    requires if 2 * count > BUF_SIZE then size == BUF_SIZE && remain == 2 * count - BUF_SIZE
             else size == 2 * count && remain == 0
    ensures FillCounts(count, 0, size, remain) && size / 2 == Min(count, PER_BUF)
  {
  }

  lemma CountsNext(count: nat, chunks: nat, size: int, remain: int, pt: nat)
    requires FillCounts(count, chunks, size, remain) && pt < BUF_SIZE
    ensures 0 <= size <= BUF_SIZE && size == 2 * (size / 2)
    ensures remain == 0 ==>
      && PER_BUF * chunks + size / 2 == count && BUF_SIZE * chunks + size == 2 * count
      && (pt + size) % BUF_SIZE == (pt + 2 * count) % BUF_SIZE
    ensures remain > 0 ==>
      && size == BUF_SIZE && size / 2 == PER_BUF && (pt + size) % BUF_SIZE == pt
      && PER_BUF * chunks + size / 2 == PER_BUF * (chunks + 1)
      && 0 <= NextSize(size, remain) / 2 <= PER_BUF
      && FillCounts(count, chunks + 1, NextSize(size, remain), Max(0, remain - BUF_SIZE))
  {
  }
}
