/** The AT24Cxx routines of demo/wm_i2c_demo.c over a bus-level model of the chip. */
module Eeprom {
  import opened CTypes

  const CELLS: nat := 256

  type Memory = m: seq<Byte> | |m| == CELLS witness seq(CELLS, _ => 0)

  /** What the chip expects next. A written byte is programmed only by the stop condition. */
  datatype Phase =
    | Idle
    | WordAddress
    | DataIn(pending: map<Byte, Byte>)
    | Reading
    | Ignoring

  /** An absent chip never answers; the bus then reads as all ones. */
  datatype Device = Device(present: bool, mem: Memory, ptr: Byte, phase: Phase)

  /** What a reader of the whole chip would see. */
  function Image(d: Device): Memory {
    if d.present then d.mem else seq(CELLS, _ => 0xFF)
  }

  lemma SameImage(d: Device, e: Device)
    requires d.present == e.present && d.mem == e.mem
    ensures Image(d) == Image(e)
  {
  }

  function Cell(n: int): Byte { n % CELLS }

  function OnWrite(d: Device, data: Byte, start: bool): Device {
    if start then
      d.(phase := if d.present && data == 0xA0 then WordAddress
                  else if d.present && data == 0xA1 then Reading
                  else Ignoring)
    else
      match d.phase
      case WordAddress => d.(ptr := data, phase := DataIn(map[]))
      case DataIn(pending) => d.(ptr := Cell(d.ptr + 1), phase := DataIn(pending[d.ptr := data]))
      case _ => d
  }

  function OnRead(d: Device): Byte {
    if d.phase.Reading? then d.mem[d.ptr] else 0xFF
  }

  function AfterRead(d: Device, ack: bool, stop: bool): Device {
    var d := if d.phase.Reading? then d.(ptr := Cell(d.ptr + 1)) else d;
    if stop then OnStop(d) else if ack then d else d.(phase := Ignoring)
  }

  function OnStop(d: Device): Device {
    match d.phase
    case DataIn(pending) =>
      d.(mem := seq(CELLS, i requires 0 <= i < CELLS => if i in pending then pending[i] else d.mem[i]),
         phase := Idle)
    case _ => d.(phase := Idle)
  }

  // ---- what the routines are for

  /** n consecutive cells from addr, wrapping at the top of the chip. */
  function Cells(mem: Memory, addr: nat, n: nat): (s: seq<Byte>)
    ensures |s| == n
  {
    seq(n, i requires 0 <= i < n => mem[Cell(addr + i)])
  }

  lemma CellsSnoc(mem: Memory, addr: nat, n: nat)
    ensures Cells(mem, addr, n + 1) == Cells(mem, addr, n) + [mem[Cell(addr + n)]]
  {
  }

  lemma CellOfU16(n: nat)
    ensures Cell(ToU16(n)) == Cell(n) && ToU16(ToU16(n) + 1) == ToU16(n + 1)
    ensures n < 0x1_0000 ==> ToU16(n) == n
  {
  }

  /** The memory after storing data byte by byte from addr. */
  function Stored(mem: Memory, addr: nat, data: seq<Byte>): Memory {
    if data == [] then mem else
      var last := |data| - 1;
      Stored(mem, addr, data[..last])[Cell(addr + last) := data[last]]
  }

  lemma CellPeriod(n: nat)
    ensures Cell(n + CELLS) == Cell(n)
  {
  }

  /** The last CELLS bytes of a write are in the chip afterwards; earlier ones were overwritten. */
  lemma {:induction false} StoredAt(mem: Memory, addr: nat, data: seq<Byte>, i: nat)
    requires i < |data| <= i + CELLS
    ensures Stored(mem, addr, data)[Cell(addr + i)] == data[i]
    decreases data
  {
    hide Cell;
    var last := |data| - 1;
    if i < last {
      StoredAt(mem, addr, data[..last], i);
      CellsDiffer(addr + i, addr + last);
    }
  }

  lemma CellsDiffer(a: nat, b: nat)
    requires a < b < a + CELLS
    ensures Cell(a) != Cell(b)
  {
  }

  predicate IsElsewhere(addr: nat, i: nat, c: Byte) { Cell(addr + i) != c }

  /** Storing touches no other cell. */
  lemma {:induction false} StoredElsewhere(mem: Memory, addr: nat, data: seq<Byte>, c: Byte)
    requires forall i: nat | i < |data| :: IsElsewhere(addr, i, c)
    ensures Stored(mem, addr, data)[c] == mem[c]
    decreases data
  {
    if data != [] {
      var last := |data| - 1;
      assert IsElsewhere(addr, last, c);
      StoredElsewhere(mem, addr, data[..last], c);
    }
  }

  /** Reading back what was written gives the data exactly when it has period CELLS;
      in particular always when it is no longer than the chip. */
  lemma WriteThenRead(mem: Memory, addr: nat, data: seq<Byte>)
    ensures Cells(Stored(mem, addr, data), addr, |data|) == data
       <==> forall i {:trigger data[i]} | 0 <= i < |data| - CELLS :: data[i] == data[i + CELLS]
  {
    hide Stored, Cell;
    var back := Cells(Stored(mem, addr, data), addr, |data|);
    forall i | 0 <= i < |data| - CELLS ensures back[i] == back[i + CELLS] {
      CellPeriod(addr + i);
    }
    forall i | 0 <= i < |data| && |data| <= i + CELLS ensures back[i] == data[i] {
      StoredAt(mem, addr, data, i);
    }
    if forall i {:trigger data[i]} | 0 <= i < |data| - CELLS :: data[i] == data[i + CELLS] {
      forall i | 0 <= i < |data| ensures back[i] == data[i] {
        AgreeBackwards(back, data, i);
      }
    }
  }

  /** One byte more than the chip has cells, the first and the last different. */
  lemma TooLong(mem: Memory, addr: nat)
    ensures var data: seq<Byte> := [1] + seq(CELLS, _ => 0);
            Cells(Stored(mem, addr, data), addr, |data|) != data
  {
    var data: seq<Byte> := [1] + seq(CELLS, _ => 0);
    assert data[0] != data[0 + CELLS];
    WriteThenRead(mem, addr, data);
  }

  lemma {:induction false} AgreeBackwards(back: seq<Byte>, data: seq<Byte>, i: nat)
    requires |back| == |data| && i < |data|
    requires forall j {:trigger data[j]} | 0 <= j < |data| - CELLS :: data[j] == data[j + CELLS]
    requires forall j {:trigger back[j]} | 0 <= j < |data| - CELLS :: back[j] == back[j + CELLS]
    requires forall j | 0 <= j < |data| && |data| <= j + CELLS :: back[j] == data[j]
    ensures back[i] == data[i]
    decreases |data| - i
  {
    if i + CELLS < |data| {
      AgreeBackwards(back, data, i + CELLS);
    }
  }

  /** The chip ready to deliver a cell, or not listening if it is absent. */
  function AtCell(d: Device, addr: nat): Device {
    if d.present then d.(ptr := Cell(addr), phase := Reading) else d.(phase := Ignoring)
  }

  /** One byte of a sequential read. */
  lemma ReadStep(d: Device, addr: nat)
    ensures OnRead(AtCell(d, addr)) == Image(d)[Cell(addr)]
    ensures AfterRead(AtCell(d, addr), true, false) == AtCell(d, addr + 1)
    ensures Image(AtCell(d, addr)) == Image(d)
    ensures var e := AfterRead(AtCell(d, addr), false, true);
            e.phase == Idle && e.mem == d.mem && e.present == d.present && Image(e) == Image(d)
  {
  }

  // ---- the routines

  /** `*buf++ = b`: one more byte of a buffer whose first i bytes are done. */
  method PutNext(buf: array<Byte>, i: nat, b: Byte, ghost done: seq<Byte>, ghost was: seq<Byte>)
    requires i < buf.Length == |was| && |done| == i && buf[..] == done + was[i..]
    modifies buf
    ensures buf[..] == done + [b] + was[i + 1..]
  {
    buf[i] := b;
  }

  class Bus {
    var dev: Device

    constructor (dev: Device)
      ensures this.dev == dev
    {
      this.dev := dev;
    }

    method WriteByte(data: int, start: bool)
      modifies this
      ensures dev == OnWrite(old(dev), ToByte(data), start)
    {
      dev := OnWrite(dev, ToByte(data), start);
    }

    method ReadByte(ack: bool, stop: bool) returns (b: Byte)
      modifies this
      ensures b == OnRead(old(dev)) && dev == AfterRead(old(dev), ack, stop)
    {
      b := OnRead(dev);
      dev := AfterRead(dev, ack, stop);
    }

    method Stop()
      modifies this
      ensures dev == OnStop(old(dev))
    {
      dev := OnStop(dev);
    }

    /** The dummy write and restart that begin every read. */
    method BeginRead(addr: U16)
      modifies this
      ensures dev == AtCell(old(dev), addr)
    {
      WriteByte(0xA0, true);
      WriteByte(addr, false);
      WriteByte(0xA1, true);
    }

    method ReadOneByte(addr: U16) returns (b: Byte)
      modifies this
      ensures b == Image(old(dev))[Cell(addr)]
      ensures dev.phase == Idle && dev.mem == old(dev).mem && dev.present == old(dev.present)
    {
      BeginRead(addr);
      b := ReadByte(false, true);
    }

    /** One sequential transfer. A zero length still stores one byte. */
    method ReadLenByte(addr: U16, buf: array<Byte>, len: U16)
      requires buf.Length >= len && buf.Length >= 1
      modifies this, buf
      ensures dev.phase == Idle && dev.mem == old(dev).mem && dev.present == old(dev.present)
      ensures var n := if len == 0 then 1 else len;
              buf[..] == Cells(Image(dev), addr, n) + old(buf[..])[n..]
    {
      hide *;
      BeginRead(addr);
      var i: nat, remaining: int := 0, len;
      while remaining > 1
        invariant remaining == len - i && (len >= 1 ==> remaining >= 1) && (len == 0 ==> i == 0)
        invariant dev == AtCell(old(dev), addr + i)
        invariant buf[..] == Cells(Image(old(dev)), addr, i) + old(buf[..])[i..]
      {
        ReadStep(old(dev), addr + i);
        var b := ReadByte(true, false);
        CellsSnoc(Image(old(dev)), addr, i);
        PutNext(buf, i, b, Cells(Image(old(dev)), addr, i), old(buf[..]));
        i, remaining := i + 1, remaining - 1;
      }
      ReadStep(old(dev), addr + i);
      var b := ReadByte(false, true);
      CellsSnoc(Image(old(dev)), addr, i);
      PutNext(buf, i, b, Cells(Image(old(dev)), addr, i), old(buf[..]));
    }

    method WriteOneByte(addr: U16, data: Byte)
      modifies this
      ensures dev.phase == Idle && dev.present == old(dev.present)
      ensures dev.mem == if dev.present then old(dev).mem[Cell(addr) := data] else old(dev).mem
    {
      WriteByte(0xA0, true);
      WriteByte(addr, false);
      WriteByte(data, false);
      Stop();
    }

    /** 0 exactly when the chip answers; its last cell then holds the mark. */
    method Check() returns (r: Byte)
      modifies this
      ensures r == (if dev.present then 0 else 1) && dev.phase == Idle && dev.present == old(dev.present)
      ensures dev.mem == if dev.present then old(dev).mem[255 := 0x55] else old(dev).mem
    {
      var temp := ReadOneByte(255);
      if temp == 0x55 {
        return 0;
      }
      WriteOneByte(255, 0x55);
      temp := ReadOneByte(255);
      if temp == 0x55 {
        return 0;
      }
      return 1;
    }

    /** Byte-at-a-time read: the same cells as ReadLenByte, for every length from 1. */
    method Read(addr: U16, buf: array<Byte>, len: U16)
      requires buf.Length >= len
      modifies this, buf
      ensures dev.mem == old(dev).mem && dev.present == old(dev.present)
      ensures len > 0 || old(dev).phase == Idle ==> dev.phase == Idle
      ensures buf[..] == Cells(Image(dev), addr, len) + old(buf[..])[len..]
    {
      hide Cells, Cell, ToU16, Image;
      CellOfU16(addr);
      ghost var image := Image(dev);
      var i: nat, a: int := 0, addr;
      while i < len
        invariant 0 <= i <= len && a == ToU16(addr + i)
        invariant dev.mem == old(dev).mem && dev.present == old(dev.present) && Image(dev) == image
        invariant i > 0 || old(dev).phase == Idle ==> dev.phase == Idle
        invariant buf[..] == Cells(image, addr, i) + old(buf[..])[i..]
      {
        CellOfU16(addr + i);
        ghost var was := dev;
        var b := ReadOneByte(a);
        SameImage(was, dev);
        CellsSnoc(image, addr, i);
        PutNext(buf, i, b, Cells(image, addr, i), old(buf[..]));
        i, a := i + 1, ToU16(a + 1);
      }
    }

    method Write(addr: U16, buf: array<Byte>, len: U16)
      requires buf.Length >= len
      modifies this
      ensures dev.present == old(dev.present)
      ensures dev.mem == if dev.present then Stored(old(dev).mem, addr, buf[..len]) else old(dev).mem
      ensures len > 0 || old(dev).phase == Idle ==> dev.phase == Idle
    {
      hide Cell, ToU16;
      CellOfU16(addr);
      var i: nat, a: int := 0, addr;
      while i < len
        invariant 0 <= i <= len && a == ToU16(addr + i)
        invariant dev.present == old(dev.present)
        invariant dev.mem == if dev.present then Stored(old(dev).mem, addr, buf[..i]) else old(dev).mem
        invariant i > 0 || old(dev).phase == Idle ==> dev.phase == Idle
      {
        CellOfU16(addr + i);
        assert buf[..i + 1][..i] == buf[..i];
        WriteOneByte(a, buf[i]);
        i, a := i + 1, ToU16(a + 1);
      }
    }

    /** Write, then the sequential read: what was written comes back, up to a chip's length. */
    method WriteAndReadBack(addr: U16, src: array<Byte>, dst: array<Byte>, len: U16)
      requires dev.present && 1 <= len <= CELLS && src.Length >= len && dst.Length >= len && src != dst
      modifies this, dst
      ensures dst[..len] == src[..len] && dev.phase == Idle
    {
      Write(addr, src, len);
      WriteThenRead(old(dev).mem, addr, src[..len]);
      ReadLenByte(addr, dst, len);
    }
  }
}
