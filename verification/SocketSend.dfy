/** One pass of the send task of demo/wm_socket_server_demo.c over its slots, as a function: what is asked
    of send for every slot, and what is left of the slot's length. */
module SocketSend {
  const CHUNK: nat := 1024 // DEMO_SOCK_BUF_SIZE
  const UNLIMITED: int := -1

  /** A slot as the pass finds it: whether it will be served, and its snd_data_len. */
  datatype Slot = Slot(hit: bool, left: int)

  /** Lines 286-294: the length handed to send. For an empty length it is whatever the last one was. */
  function Chunk(left: int, stale: int): int {
    if left == UNLIMITED then CHUNK
    else if left == 0 then stale
    else if left > CHUNK then CHUNK
    else left
  }

  /** At most 1024 bytes are handed over at once, as many for an unlimited request, and never more than is left. */
  lemma ChunkMeans(left: int, stale: int)
    ensures left == -1 || left >= 1024 ==> Chunk(left, stale) == 1024
    ensures left <= 1024 && left != -1 && left != 0 ==> Chunk(left, stale) == left
    ensures left == 0 ==> Chunk(left, stale) == stale
  {
  }

  /** The local `len` when the pass reaches slot i. */
  function LenAt(len: int, slots: seq<Slot>, i: nat): int
    requires i <= |slots|
  {
    if i == 0 then len
    else if slots[i - 1].hit then Chunk(slots[i - 1].left, LenAt(len, slots, i - 1))
    else LenAt(len, slots, i - 1)
  }

  /** It is kept from the pass before until a slot with something left is served. */
  lemma LenMeans(len: int, slots: seq<Slot>, i: nat)
    requires i < |slots|
    ensures LenAt(len, slots, 0) == len
    ensures !slots[i].hit || slots[i].left == 0 ==> LenAt(len, slots, i + 1) == LenAt(len, slots, i)
    ensures slots[i].hit && (slots[i].left == -1 || slots[i].left > 1024) ==> LenAt(len, slots, i + 1) == 1024
    ensures slots[i].hit && 1 <= slots[i].left <= 1024 ==> LenAt(len, slots, i + 1) == slots[i].left
  {
  }

  /** What send returns for slot i. */
  function Ret(len: int, slots: seq<Slot>, took: (nat, int) -> int, i: nat): int
    requires i < |slots|
  {
    took(i, Chunk(slots[i].left, LenAt(len, slots, i)))
  }

  /** Lines 300-306. */
  function LeftAfter(len: int, slots: seq<Slot>, took: (nat, int) -> int, i: nat): int
    requires i < |slots|
  {
    var s, ret := slots[i], Ret(len, slots, took, i);
    if !s.hit || ret == -1 || s.left == UNLIMITED then s.left else s.left - ret
  }

  function SentBy(len: int, slots: seq<Slot>, took: (nat, int) -> int, i: nat): int
    requires i < |slots|
  {
    if slots[i].hit && Ret(len, slots, took, i) != -1 then Ret(len, slots, took, i) else 0
  }

  /** What a pass makes of slot i: nothing if it is not served or its send fails; otherwise the bytes taken are
      counted, and subtracted from any length but the unlimited one. */
  lemma SlotMeans(len: int, slots: seq<Slot>, took: (nat, int) -> int, i: nat, left: int, r: int)
    requires i < |slots| && slots[i].left == left && r == Ret(len, slots, took, i)
    ensures !slots[i].hit || r == -1 ==> LeftAfter(len, slots, took, i) == left && SentBy(len, slots, took, i) == 0
    ensures slots[i].hit && r != -1 ==>
      LeftAfter(len, slots, took, i) == (if left == -1 then -1 else left - r) && SentBy(len, slots, took, i) == r
    ensures left == -1 || left >= 1024 ==> r == took(i, 1024)
    ensures left <= 1024 && left != -1 && left != 0 ==> r == took(i, left)
  {
  }

  /** send never takes more than it is given. */
  ghost predicate SendsAtMost(took: (nat, int) -> int) {
    forall i: nat, n: int :: -1 <= took(i, n) && (n >= 0 ==> took(i, n) <= n)
  }

  /** No slot with nothing left is served and takes bytes all the same. */
  ghost predicate NoEmptySlotSends(len: int, slots: seq<Slot>, took: (nat, int) -> int) {
    forall i: nat | i < |slots| && slots[i].hit && slots[i].left == 0 :: Ret(len, slots, took, i) <= 0
  }

  lemma {:induction false} LenInRange(len: int, slots: seq<Slot>, i: nat)
    requires 1 <= len <= CHUNK && i <= |slots|
    requires forall j | 0 <= j < |slots| :: slots[j].left >= -1
    ensures 1 <= LenAt(len, slots, i) <= CHUNK
  {
    if i > 0 {
      LenInRange(len, slots, i - 1);
    }
  }

  /** A slot's length stays meaningful, a finite one non-negative and an unlimited one unlimited, if and
      only if it was not an empty length that sent bytes. */
  lemma SlotKept(len: int, slots: seq<Slot>, took: (nat, int) -> int, i: nat)
    requires i < |slots| && slots[i].left >= -1 && SendsAtMost(took)
    ensures var after := LeftAfter(len, slots, took, i);
      && (slots[i].left == UNLIMITED ==> after == UNLIMITED)
      && (slots[i].left >= 0 ==>
          && after == slots[i].left - SentBy(len, slots, took, i)
          && (after >= 0 <==> !(slots[i].hit && slots[i].left == 0 && Ret(len, slots, took, i) > 0)))
  {
  }

  // ---- the ledger of a table of slots

  ghost predicate ConservedIn(asked: seq<int>, sent: seq<int>, left: seq<int>)
    requires |asked| == |sent| == |left|
  {
    forall i | 0 <= i < |asked| && asked[i] >= 0 :: sent[i] + left[i] == asked[i]
  }

  ghost predicate IntactIn(asked: seq<int>, sent: seq<int>, left: seq<int>)
    requires |asked| == |sent| == |left|
  {
    && ConservedIn(asked, sent, left)
    && forall i | 0 <= i < |asked| :: asked[i] >= -1 && (if asked[i] >= 0 then left[i] >= 0 else left[i] == UNLIMITED)
  }

  ghost predicate LeftOf(slots: seq<Slot>, left: seq<int>) {
    |slots| == |left| && forall i | 0 <= i < |slots| :: slots[i].left == left[i]
  }

  /** A pass from an intact ledger conserves every request, and leaves the ledger intact if and only if
      no served slot with nothing left takes bytes. */
  lemma PassLedger(len: int, slots: seq<Slot>, took: (nat, int) -> int,
                   asked: seq<int>, sent: seq<int>, sent': seq<int>, left: seq<int>, left': seq<int>)
    requires |asked| == |sent| == |sent'| == |left| == |left'| == |slots| && LeftOf(slots, left)
    requires SendsAtMost(took) && IntactIn(asked, sent, left)
    requires forall i | 0 <= i < |slots| :: left'[i] == LeftAfter(len, slots, took, i)
    requires forall i | 0 <= i < |slots| :: sent'[i] == sent[i] + SentBy(len, slots, took, i)
    ensures ConservedIn(asked, sent', left')
    ensures IntactIn(asked, sent', left') <==> NoEmptySlotSends(len, slots, took)
  {
    hide LeftAfter, SentBy, Ret, SendsAtMost;
    forall i | 0 <= i < |slots|
      ensures asked[i] >= 0 ==> sent'[i] + left'[i] == asked[i]
      ensures asked[i] < 0 ==> left'[i] == UNLIMITED && slots[i].left != 0
      ensures asked[i] >= 0 ==>
        (left'[i] >= 0 <==> !(slots[i].hit && slots[i].left == 0 && Ret(len, slots, took, i) > 0))
    {
      SlotKept(len, slots, took, i);
    }
  }

  lemma PassLengths(len: int, slots: seq<Slot>, asked: seq<int>, sent: seq<int>, left: seq<int>)
    requires |asked| == |sent| == |left| == |slots| && LeftOf(slots, left)
    ensures LenAt(len, slots, 0) == len
    ensures IntactIn(asked, sent, left) && 1 <= len <= CHUNK ==>
      forall i | 0 <= i <= |slots| :: 1 <= LenAt(len, slots, i) <= CHUNK
  {
    if IntactIn(asked, sent, left) && 1 <= len <= CHUNK {
      forall i | 0 <= i <= |slots| ensures 1 <= LenAt(len, slots, i) <= CHUNK {
        LenInRange(len, slots, i);
      }
    }
  }

  lemma AllLeft(asked: seq<int>, sent: seq<int>, left: seq<int>)
    requires |asked| == |sent| == |left| && IntactIn(asked, sent, left) && forall i | 0 <= i < |asked| :: asked[i] >= 0
    ensures forall i | 0 <= i < |left| :: left[i] >= 0 && sent[i] + left[i] == asked[i]
  {
  }

  lemma Progress(len: int, slots: seq<Slot>, took: (nat, int) -> int, i: nat)
    requires i < |slots| && slots[i].left >= 0 && (slots[i].hit ==> slots[i].left > 0)
    requires SendsAtMost(took) && forall j: nat, n: int :: n >= 1 ==> took(j, n) >= 1
    ensures LeftAfter(len, slots, took, i) <= slots[i].left
    ensures slots[i].hit ==> LeftAfter(len, slots, took, i) < slots[i].left
  {
  }
}
