/** Slot arithmetic shared by the socket-server models: client_fd_queue, where -1 marks a free slot. */
module SocketTable {
  const BACKLOG: nat := 7
  const FREE: int := -1
  const EMPTY: seq<int> := [FREE, FREE, FREE, FREE, FREE, FREE, FREE]

  function Occupied(slots: seq<int>): nat {
    if slots == [] then 0 else
      Occupied(slots[..|slots| - 1]) + if slots[|slots| - 1] != FREE then 1 else 0
  }

  predicate HasFreeFrom(slots: seq<int>, i: nat) {
    exists f :: i <= f < |slots| && slots[f] == FREE
  }

  lemma EmptyTable()
    ensures |EMPTY| == BACKLOG && Occupied(EMPTY) == 0
  {
    AllFree(EMPTY);
  }

  lemma {:induction false} AllFree(slots: seq<int>)
    requires forall i | 0 <= i < |slots| :: slots[i] == FREE
    ensures Occupied(slots) == 0
  {
    if slots != [] {
      AllFree(slots[..|slots| - 1]);
    }
  }

  lemma {:induction false} OccupiedUpdate(slots: seq<int>, i: nat, v: int)
    requires i < |slots|
    ensures Occupied(slots[i := v])
         == Occupied(slots) - (if slots[i] != FREE then 1 else 0) + (if v != FREE then 1 else 0)
  {
    var last := |slots| - 1;
    if i == last {
      assert slots[i := v][..last] == slots[..last];
    } else {
      OccupiedUpdate(slots[..last], i, v);
      assert slots[i := v][..last] == slots[..last][i := v];
    }
  }

  lemma {:induction false} OccupiedBounds(slots: seq<int>)
    ensures Occupied(slots) <= |slots|
    ensures Occupied(slots) == |slots| <==> forall i | 0 <= i < |slots| :: slots[i] != FREE
  {
    if slots != [] {
      OccupiedBounds(slots[..|slots| - 1]);
      assert slots == slots[..|slots| - 1] + [slots[|slots| - 1]];
    }
  }

  lemma FreeExists(slots: seq<int>)
    ensures Occupied(slots) < |slots| ==> HasFreeFrom(slots, 0)
  {
    OccupiedBounds(slots);
  }

  lemma OneOccupied(slots: seq<int>, i: nat)
    requires i < |slots| && slots[i] != FREE
    ensures Occupied(slots) >= 1
  {
    OccupiedUpdate(slots, i, FREE);
  }

  // ---- the descriptors in the table

  function One(fd: int): multiset<int> { if fd != FREE then multiset{fd} else multiset{} }

  /** The descriptors in the table. */
  function Held(slots: seq<int>): multiset<int> {
    if slots == [] then multiset{} else
      Held(slots[..|slots| - 1]) + One(slots[|slots| - 1])
  }

  lemma Swap(a: multiset<int>, x: multiset<int>, y: multiset<int>)
    ensures (a + x) + y == (a + y) + x
  {
  }

  lemma {:induction false} HeldUpdate(slots: seq<int>, i: nat, v: int)
    requires i < |slots|
    ensures Held(slots[i := v]) + One(slots[i]) == Held(slots) + One(v)
  {
    hide One;
    var last := |slots| - 1;
    var front := slots[..last];
    if i == last {
      assert slots[i := v][..last] == front;
      Swap(Held(front), One(v), One(slots[i]));
    } else {
      HeldUpdate(front, i, v);
      assert slots[i := v][..last] == front[i := v];
      Swap(Held(front[i := v]), One(slots[last]), One(slots[i]));
      Swap(Held(front), One(slots[last]), One(v));
    }
  }

  lemma {:induction false} HeldNone(slots: seq<int>)
    requires forall i | 0 <= i < |slots| :: slots[i] == FREE
    ensures Held(slots) == multiset{}
  {
    if slots != [] {
      HeldNone(slots[..|slots| - 1]);
    }
  }

  /** How many slots hold x. */
  function Copies(slots: seq<int>, x: int): nat {
    if slots == [] then 0 else
      Copies(slots[..|slots| - 1], x) + if slots[|slots| - 1] == x then 1 else 0
  }

  lemma {:induction false} CopiesUpdate(slots: seq<int>, i: nat, v: int, x: int)
    requires i < |slots|
    ensures Copies(slots[i := v], x)
         == Copies(slots, x) - (if slots[i] == x then 1 else 0) + (if v == x then 1 else 0)
  {
    var last := |slots| - 1;
    if i == last {
      assert slots[i := v][..last] == slots[..last];
    } else {
      CopiesUpdate(slots[..last], i, v, x);
      assert slots[i := v][..last] == slots[..last][i := v];
    }
  }

  lemma {:induction false} CopiesNone(slots: seq<int>, x: int)
    requires x !in slots
    ensures Copies(slots, x) == 0
  {
    if slots != [] {
      CopiesNone(slots[..|slots| - 1], x);
    }
  }
}
