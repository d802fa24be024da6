/** The CIRC_* index arithmetic of include/driver/wm_uart.h: mask formulas and
    what they mean for a power-of-two ring. */
module CircBuffer {
  import opened CTypes

  function Pow2(k: nat): (p: nat)
    ensures p >= 1
  {
    if k == 0 then 1 else 2 * Pow2(k - 1)
  }

  /** C's `x & mask` for a two's-complement x of any width and a non-negative mask, bit by bit. */
  function And(x: int, mask: nat): nat
    decreases mask
  {
    if mask == 0 then 0 else (x % 2) * (mask % 2) + 2 * And(x / 2, mask / 2)
  }

  // ---- the macros

  function Cnt(head: int, tail: int, size: nat): nat
    requires size >= 1
  {
    And(head - tail, size - 1)
  }

  function Space(head: int, tail: int, size: nat): nat
    requires size >= 1
  {
    Cnt(tail, head + 1, size)
  }

  function CntToEnd(head: int, tail: int, size: nat): int
    requires size >= 1
  {
    var end := size - tail;
    var n := And(head + end, size - 1);
    if n < end then n else end
  }

  function SpaceToEnd(head: int, tail: int, size: nat): int
    requires size >= 1
  {
    var end := size - 1 - head;
    var n := And(end + tail, size - 1);
    if n <= end then n else end + 1
  }

  function SpaceToEndFull(head: int, tail: int, size: nat): int
    requires size >= 1
  {
    var end := size - 1 - head;
    var n := And(end + tail, size - 1);
    if n < end then n else end + 1
  }

  // ---- masking is the remainder

  lemma Scale(d: int, m: int)
    requires m > 0
    ensures d >= 1 ==> d * m >= m
    ensures d <= -1 ==> d * m <= -m
  {
    if d >= 1 {
      assert (d - 1) * m >= 0;
    } else if d <= -1 {
      assert (-d - 1) * m >= 0;
      assert (-d - 1) * m == -(d * m) - m;
    }
  }

  lemma DivModUnique(x: int, m: int, q: int, r: int)
    requires m > 0 && 0 <= r < m && x == q * m + r
    ensures x / m == q && x % m == r
  {
    var d := x / m - q;
    assert d * m == r - x % m by {
      assert x == (x / m) * m + x % m;
      assert d * m == (x / m) * m - q * m;
    }
    Scale(d, m);
  }

  /** The two halves of a number modulo 2p: its last bit and the rest modulo p. */
  lemma HalfMod(x: int, p: int)
    requires p > 0
    ensures x % (2 * p) == x % 2 + 2 * ((x / 2) % p)
  {
    var h := x / 2;
    var r := x % 2 + 2 * (h % p);
    assert x == (h / p) * (2 * p) + r by {
      assert h == (h / p) * p + h % p;
      assert (h / p) * (2 * p) == 2 * ((h / p) * p);
    }
    DivModUnique(x, 2 * p, h / p, r);
  }

  lemma AndOdd(x: int, p: nat)
    requires p >= 1
    ensures And(x, 2 * p - 1) == x % 2 + 2 * And(x / 2, p - 1)
  {
    assert (2 * p - 1) % 2 == 1 && (2 * p - 1) / 2 == p - 1;
  }

  lemma AndDoubles(x: int, p: nat)
    requires p >= 1 && And(x / 2, p - 1) == (x / 2) % p
    ensures And(x, 2 * p - 1) == x % (2 * p)
  {
    AndOdd(x, p);
    HalfMod(x, p);
  }

  lemma {:induction false} AndIsMod(x: int, k: nat)
    ensures And(x, Pow2(k) - 1) == x % Pow2(k)
    decreases k
  {
    hide And, Pow2;
    Pow2Step(k);
    if k == 0 {
      AndNothing(x);
    } else {
      AndIsMod(x / 2, k - 1);
      AndDoubles(x, Pow2(k - 1));
    }
  }

  lemma Pow2Step(k: nat)
    ensures Pow2(k) == if k == 0 then 1 else 2 * Pow2(k - 1)
  {
  }

  lemma AndNothing(x: int)
    ensures And(x, 0) == x % 1
  {
  }

  /** Masking an index that is out of range by less than one turn. */
  lemma AndNear(x: int, k: nat)
    requires 0 <= x + Pow2(k) && x < 2 * Pow2(k)
    ensures And(x, Pow2(k) - 1)
         == if x < 0 then x + Pow2(k) else if x < Pow2(k) then x else x - Pow2(k)
  {
    var m := Pow2(k);
    AndIsMod(x, k);
    var q: int := if x < 0 then -1 else if x < m then 0 else 1;
    DivModUnique(x, m, q, x - q * m);
  }

  lemma {:induction false} Pow2Add(a: nat, b: nat)
    ensures Pow2(a + b) == Pow2(a) * Pow2(b)
  {
    if a == 0 {
    } else {
      Pow2Add(a - 1, b);
      assert Pow2(a + b) == 2 * (Pow2(a - 1) * Pow2(b));
    }
  }

  lemma ModOfMod(x: int, p: int, c: int)
    requires p > 0 && c > 0
    ensures p * c > 0 && (x % (p * c)) % p == x % p
  {
    Scale(p, c);
    var y := x % (p * c);
    var q := x / (p * c);
    var t := q * c + y / p;
    assert x == q * (p * c) + y;
    assert y == (y / p) * p + y % p;
    assert q * (p * c) == (q * c) * p;
    assert t * p == (q * c) * p + (y / p) * p;
    DivModUnique(x, p, t, y % p);
  }

  /** The indices are u32: reducing an operand modulo 2^32 first never changes a masked result. */
  lemma WrapIsHarmless(x: int, k: nat)
    requires k <= 32
    ensures And(x % Pow2(32), Pow2(k) - 1) == And(x, Pow2(k) - 1)
  {
    AndIsMod(x, k);
    AndIsMod(x % Pow2(32), k);
    Pow2Add(k, 32 - k);
    ModOfMod(x, Pow2(k), Pow2(32 - k));
  }

  // ---- what the macros mean

  lemma Complement(x: int, m: int)
    requires m > 0
    ensures (-x - 1) % m == m - 1 - x % m
  {
    assert x == (x / m) * m + x % m;
    assert (-(x / m) - 1) * m == -((x / m) * m) - m;
    DivModUnique(-x - 1, m, -(x / m) - 1, m - 1 - x % m);
  }

  /** For every power-of-two size and all indices, in range or not, used plus free is size - 1. */
  lemma CntPlusSpace(head: int, tail: int, k: nat)
    ensures Cnt(head, tail, Pow2(k)) == (head - tail) % Pow2(k)
    ensures Cnt(head, tail, Pow2(k)) + Space(head, tail, Pow2(k)) == Pow2(k) - 1
  {
    var x := head - tail;
    AndIsMod(x, k);
    assert tail - (head + 1) == -x - 1;
    AndIsMod(-x - 1, k);
    Complement(x, Pow2(k));
  }

  lemma CntInRange(head: nat, tail: nat, k: nat)
    requires head < Pow2(k) && tail < Pow2(k)
    ensures Cnt(head, tail, Pow2(k)) == if head >= tail then head - tail else head - tail + Pow2(k)
  {
    AndNear(head - tail, k);
  }

  lemma ToEndAreMinima(head: nat, tail: nat, k: nat)
    requires head < Pow2(k) && tail < Pow2(k)
    ensures CntToEnd(head, tail, Pow2(k)) == Min(Cnt(head, tail, Pow2(k)), Pow2(k) - tail)
    ensures SpaceToEnd(head, tail, Pow2(k)) == Min(Space(head, tail, Pow2(k)), Pow2(k) - head)
  {
    hide And, Pow2;
    var m := Pow2(k);
    AndNear(head + (m - tail), k);
    AndNear(head - tail, k);
    AndNear((m - 1 - head) + tail, k);
    AndNear(tail - (head + 1), k);
  }

  /** CIRC_SPACE_TO_END_FULL over-reports, by exactly one, exactly when tail is 0. */
  lemma FullVariant(head: nat, tail: nat, k: nat)
    requires head < Pow2(k) && tail < Pow2(k)
    ensures SpaceToEndFull(head, tail, Pow2(k))
         == SpaceToEnd(head, tail, Pow2(k)) + if tail == 0 then 1 else 0
  {
    AndNear((Pow2(k) - 1 - head) + tail, k);
  }

  /** The count after advancing head by n, for an advance that stays inside the array. */
  lemma CountAfter(head: nat, tail: nat, n: nat, k: nat)
    requires head < Pow2(k) && tail < Pow2(k) && head + n <= Pow2(k)
    ensures Cnt(And(head + n, Pow2(k) - 1), tail, Pow2(k)) == Cnt(head, tail, Pow2(k)) + n
       <==> n <= Space(head, tail, Pow2(k))
  {
    hide And, Pow2;
    AndNear(head + n, k);
    var h := And(head + n, Pow2(k) - 1);
    CntInRange(h, tail, k);
    CntInRange(head, tail, k);
    CntPlusSpace(head, tail, k);
  }

  /** Filling what CIRC_SPACE_TO_END reports always counts up exactly; filling what the FULL variant
      reports does so if and only if tail is not 0 (otherwise the ring then looks empty). */
  lemma FillReported(head: nat, tail: nat, k: nat)
    requires head < Pow2(k) && tail < Pow2(k)
    ensures var n := SpaceToEnd(head, tail, Pow2(k));
            Cnt(And(head + n, Pow2(k) - 1), tail, Pow2(k)) == Cnt(head, tail, Pow2(k)) + n
    ensures var n := SpaceToEndFull(head, tail, Pow2(k));
            Cnt(And(head + n, Pow2(k) - 1), tail, Pow2(k)) == Cnt(head, tail, Pow2(k)) + n <==> tail != 0
  {
    hide And, Pow2, Cnt, Space;
    ToEndAreMinima(head, tail, k);
    FullVariant(head, tail, k);
    SpaceAtZero(head, tail, k);
    CountAfter(head, tail, SpaceToEnd(head, tail, Pow2(k)), k);
    CountAfter(head, tail, SpaceToEndFull(head, tail, Pow2(k)), k);
  }

  /** In an 8-byte ring with bytes 0 to 4 used, the FULL variant reports room for 3; with them the ring looks empty. */
  lemma FullMiscounts()
    ensures Pow2(3) == 8 && SpaceToEndFull(5, 0, 8) == 3 && Cnt(5, 0, 8) == 5
    ensures Cnt(And(5 + 3, 7), 0, 8) != 5 + 3
  {
    assert Pow2(3) == 8;
    FullVariant(5, 0, 3);
    SpaceAtZero(5, 0, 3);
    CntInRange(5, 0, 3);
    ToEndAreMinima(5, 0, 3);
    FillReported(5, 0, 3);
  }

  lemma SpaceAtZero(head: nat, tail: nat, k: nat)
    requires head < Pow2(k) && tail < Pow2(k)
    ensures tail == 0 ==> Space(head, tail, Pow2(k)) == Pow2(k) - 1 - head
    ensures SpaceToEndFull(head, tail, Pow2(k)) >= 0
  {
    hide And, Pow2;
    CntInRange(head, tail, k);
    CntPlusSpace(head, tail, k);
  }

  // ---- the ring as a queue

  /** The bytes between tail and head, oldest first. */
  function Pending<T>(data: seq<T>, head: nat, tail: nat): (s: seq<T>)
    requires head < |data| && tail < |data|
    ensures |s| == if head >= tail then head - tail else |data| - tail + head
    ensures forall i | 0 <= i < |s| ::
              s[i] == data[if tail + i < |data| then tail + i else tail + i - |data|]
  {
    if head >= tail then data[tail..head] else data[tail..] + data[..head]
  }

  function Next(i: nat, n: nat, size: nat): nat { if i + n < size then i + n else i + n - size }

  lemma PendingPush<T>(data: seq<T>, head: nat, tail: nat, x: T)
    requires head < |data| && tail < |data|
    requires |Pending(data, head, tail)| + 1 < |data|
    ensures Next(head, 1, |data|) < |data|
    ensures Pending(data[head := x], Next(head, 1, |data|), tail) == Pending(data, head, tail) + [x]
  {
  }

  /** Pushing onto a ring that counts size - 1 makes it look empty. */
  lemma PendingLapped<T>(data: seq<T>, head: nat, tail: nat, x: T)
    requires head < |data| && tail < |data|
    requires |Pending(data, head, tail)| + 1 == |data|
    ensures Next(head, 1, |data|) < |data|
    ensures Pending(data[head := x], Next(head, 1, |data|), tail) == []
  {
  }

  lemma PendingPop<T>(data: seq<T>, head: nat, tail: nat, n: nat)
    requires head < |data| && tail < |data|
    requires n <= |Pending(data, head, tail)|
    ensures Next(tail, n, |data|) < |data|
    ensures Pending(data, head, Next(tail, n, |data|)) == Pending(data, head, tail)[n..]
  {
  }

  /** Two successive CIRC_CNT_TO_END segments are the whole pending region, in order, with no overlap. */
  lemma SegmentsTile<T>(data: seq<T>, head: nat, tail: nat, k: nat)
    requires |data| == Pow2(k) && head < Pow2(k) && tail < Pow2(k)
    ensures var c1 := CntToEnd(head, tail, Pow2(k));
            var t2 := And(tail + c1, Pow2(k) - 1);
            var c2 := CntToEnd(head, t2, Pow2(k));
            && 0 <= c1 && 0 <= c2 && tail + c1 <= |data| && t2 + c2 <= |data|
            && And(t2 + c2, Pow2(k) - 1) == head
            && c1 + c2 == Cnt(head, tail, Pow2(k)) == |Pending(data, head, tail)|
            && Pending(data, head, tail) == data[tail..tail + c1] + data[t2..t2 + c2]
  {
    hide And, Cnt, CntToEnd, Pow2;
    var m := Pow2(k);
    CntInRange(head, tail, k);
    ToEndAreMinima(head, tail, k);
    var c1 := CntToEnd(head, tail, m);
    assert c1 == if head >= tail then head - tail else m - tail;
    AndNear(tail + c1, k);
    var t2 := And(tail + c1, m - 1);
    assert t2 == if head >= tail then head else 0;
    CntInRange(head, t2, k);
    ToEndAreMinima(head, t2, k);
    assert CntToEnd(head, t2, m) == head - t2;
    AndNear(head, k);
  }
}
