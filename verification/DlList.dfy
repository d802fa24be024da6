/** The intrusive circular doubly-linked list of include/list.h. */
module DlList {

  class Node {
    var next: Node?
    var prev: Node?

    constructor () { next, prev := null, null; }
  }

  /** The ring read as a line: the head, the members in order, and the head again. */
  ghost function At(head: Node, s: seq<Node>, i: nat): Node
    requires i <= |s| + 1
  {
    if i == 0 || i == |s| + 1 then head else s[i - 1]
  }

  ghost predicate Linked(head: Node, s: seq<Node>, i: nat)
    requires i <= |s|
    reads head, s
  {
    && At(head, s, i).next == At(head, s, i + 1)
    && At(head, s, i + 1).prev == At(head, s, i)
  }

  ghost predicate Distinct(head: Node, s: seq<Node>) {
    && head !in s
    && forall i, j | 0 <= i < j < |s| :: s[i] != s[j]
  }

  /** head is the list head of a ring whose members, in order, are s. */
  ghost predicate Ring(head: Node, s: seq<Node>)
    reads head, s
  {
    && Distinct(head, s)
    && forall i: nat | i <= |s| :: Linked(head, s, i)
  }

  /** A head has at most one member sequence: s is a function of the pointers. */
  lemma RingIsUnique(head: Node, s: seq<Node>, t: seq<Node>)
    requires Ring(head, s) && Ring(head, t)
    ensures s == t
  {
    if |s| <= |t| {
      SamePrefix(head, s, t, |s|);
    } else {
      SamePrefix(head, t, s, |t|);
    }
  }

  lemma {:induction false} SamePrefix(head: Node, s: seq<Node>, t: seq<Node>, n: nat)
    requires Ring(head, s) && Ring(head, t) && n <= |s| <= |t|
    ensures s[..n] == t[..n]
    ensures n == |s| ==> |s| == |t|
  {
    if n > 0 {
      SamePrefix(head, s, t, n - 1);
      assert Linked(head, s, n - 1) && Linked(head, t, n - 1);
      assert n > 1 ==> s[n - 2] == s[..n - 1][n - 2] == t[n - 2];
    }
    assert n > 0 ==> s[n - 1] == s[..n][n - 1] == t[n - 1];
    assert At(head, s, n) == At(head, t, n);
    assert Linked(head, s, n) && Linked(head, t, n);
  }

  function InsertAt<T>(s: seq<T>, k: nat, x: T): seq<T>
    requires k <= |s|
  {
    s[..k] + [x] + s[k..]
  }

  function RemoveAt<T>(s: seq<T>, k: nat): seq<T>
    requires k < |s|
  {
    s[..k] + s[k + 1..]
  }

  // ---- the operations

  method Init(list: Node)
    modifies list
    ensures Ring(list, [])
  {
    list.next := list;
    list.prev := list;
  }

  /** Insert after any position k of the ring; only the two neighbours and the item change. */
  method AddAfter(at: Node, item: Node, ghost head: Node, ghost s: seq<Node>, ghost k: nat)
    requires Ring(head, s) && k <= |s| && at == At(head, s, k)
    requires at.next != null && item != head && item !in s
    modifies at`next, at.next`prev, item
    ensures Ring(head, InsertAt(s, k, item))
    ensures item.next == old(at.next) && item.prev == at
  {
    ghost var t := InsertAt(s, k, item);
    assert Linked(head, s, k);
    item.next := at.next;
    item.prev := at;
    at.next.prev := item;
    at.next := item;
    forall i: nat | i <= |t| ensures Linked(head, t, i) {
      assert i < k ==> old(Linked(head, s, i));
      assert i > k + 1 ==> old(Linked(head, s, i - 1));
    }
  }

  method Add(list: Node, item: Node, ghost s: seq<Node>)
    requires Ring(list, s) && list.next != null && item != list && item !in s
    modifies list`next, list.next`prev, item
    ensures Ring(list, [item] + s)
    ensures item.next == old(list.next) && item.prev == list
  {
    assert InsertAt(s, 0, item) == [item] + s;
    AddAfter(list, item, list, s, 0);
  }

  method AddTail(list: Node, item: Node, ghost s: seq<Node>)
    requires Ring(list, s) && list.prev != null && item != list && item !in s
    modifies list`prev, list.prev`next, item
    ensures Ring(list, s + [item])
  {
    assert Linked(list, s, |s|);
    assert InsertAt(s, |s|, item) == s + [item];
    AddAfter(list.prev, item, list, s, |s|);
  }

  method Del(item: Node, ghost head: Node, ghost s: seq<Node>, ghost k: nat)
    requires Ring(head, s) && k < |s| && s[k] == item
    requires item.next != null && item.prev != null
    modifies item, item.next`prev, item.prev`next
    ensures Ring(head, RemoveAt(s, k))
    ensures item.next == null && item.prev == null
  {
    ghost var t := RemoveAt(s, k);
    assert Linked(head, s, k) && Linked(head, s, k + 1);
    item.next.prev := item.prev;
    item.prev.next := item.next;
    item.next := null;
    item.prev := null;
    forall i: nat | i <= |t| ensures Linked(head, t, i) {
      assert i < k ==> old(Linked(head, s, i));
      assert i > k ==> old(Linked(head, s, i + 1));
    }
  }

  /** An add undone by a del leaves every pointer of the ring as it was. */
  method AddThenDel(list: Node, item: Node, ghost s: seq<Node>)
    requires Ring(list, s) && list.next != null && item != list && item !in s
    modifies list`next, list.next`prev, item
    ensures Ring(list, s)
    ensures list.next == old(list.next) && list.prev == old(list.prev)
    ensures forall i | 0 <= i < |s| :: s[i].next == old(s[i].next) && s[i].prev == old(s[i].prev)
  {
    Add(list, item, s);
    assert Linked(list, [item] + s, 0) && Linked(list, [item] + s, 1);
    Del(item, list, [item] + s, 0);
    assert RemoveAt([item] + s, 0) == s;
    assert Linked(list, s, 0) && old(Linked(list, s, 0));
  }

  method IsEmpty(list: Node, ghost s: seq<Node>) returns (b: bool)
    requires Ring(list, s)
    ensures b <==> s == []
  {
    assert Linked(list, s, 0);
    b := list.next == list;
  }

  method Len(list: Node, ghost s: seq<Node>) returns (count: nat)
    requires Ring(list, s)
    ensures count == |s|
  {
    assert Linked(list, s, 0);
    var item := list.next;
    count := 0;
    while item != list
      invariant count <= |s| && item == At(list, s, count + 1)
      decreases |s| - count
    {
      assert Linked(list, s, count + 1);
      item := item.next;
      count := count + 1;
    }
  }

  function Reverse<T>(s: seq<T>): seq<T> {
    if s == [] then [] else Reverse(s[1..]) + [s[0]]
  }

  /** dl_list_for_each with a body that records its cursor. */
  method ForEach(list: Node, ghost s: seq<Node>) returns (visited: seq<Node>)
    requires Ring(list, s)
    ensures visited == s
  {
    assert Linked(list, s, 0);
    var item := list.next;
    visited := [];
    while item != list
      invariant |visited| <= |s| && visited == s[..|visited|] && item == At(list, s, |visited| + 1)
      decreases |s| - |visited|
    {
      assert Linked(list, s, |visited| + 1);
      visited := visited + [item];
      item := item.next;
    }
  }

  method ForEachReverse(list: Node, ghost s: seq<Node>) returns (visited: seq<Node>)
    requires Ring(list, s)
    ensures visited == Reverse(s)
    ensures |visited| == |s| && forall i | 0 <= i < |s| :: visited[i] == s[|s| - 1 - i]
  {
    assert Linked(list, s, |s|);
    var item := list.prev;
    visited := [];
    ghost var k := |s|;
    assert s[k..] == [];
    while item != list
      invariant 0 <= k <= |s| && visited == Reverse(s[k..]) && item == At(list, s, k)
      decreases k
    {
      assert Linked(list, s, k - 1);
      assert s[k - 1..][1..] == s[k..];
      visited := visited + [item];
      item := item.prev;
      k := k - 1;
    }
    assert s[0..] == s;
    ReverseAt(s);
  }

  lemma {:induction false} ReverseAt<T>(s: seq<T>)
    ensures |Reverse(s)| == |s| && forall i | 0 <= i < |s| :: Reverse(s)[i] == s[|s| - 1 - i]
  {
    if s != [] {
      ReverseAt(s[1..]);
    }
  }

  /** The members that are not in kill, in order. */
  ghost function Survivors(s: seq<Node>, kill: set<Node>): seq<Node> {
    if s == [] then [] else
      var rest := Survivors(s[..|s| - 1], kill);
      if s[|s| - 1] in kill then rest else rest + [s[|s| - 1]]
  }

  lemma {:induction false} SurvivorsBelong(s: seq<Node>, kill: set<Node>, n: Node)
    ensures n in Survivors(s, kill) <==> n in s && n !in kill
  {
    if s != [] {
      SurvivorsBelong(s[..|s| - 1], kill, n);
      assert s == s[..|s| - 1] + [s[|s| - 1]];
    }
  }

  ghost predicate Unlinked(xs: seq<Node>, kill: set<Node>)
    reads xs
  {
    forall x <- xs | x in kill :: x.next == null && x.prev == null
  }

  /** Part way through the walk: the first v members visited, those in kill deleted. */
  ghost predicate Walked(list: Node, s: seq<Node>, v: nat, kill: set<Node>)
    requires v <= |s|
    reads list, s, Survivors(s[..v], kill)
  {
    && Distinct(list, s)
    && Ring(list, Survivors(s[..v], kill) + s[v..])
    && Unlinked(s[..v], kill)
  }

  /** The loop body used with dl_list_for_each_safe: delete the cursor if it is in kill. */
  method MaybeDelete(list: Node, item: Node, kill: set<Node>, ghost s: seq<Node>, ghost v: nat)
    requires v < |s| && item == s[v] && Walked(list, s, v, kill)
    modifies list, s
    ensures Walked(list, s, v + 1, kill)
  {
    ghost var done := Survivors(s[..v], kill);
    OneMore(list, done, s, v, kill);
    ghost var r := done + s[v..];
    assert r[|done|] == item;
    if item in kill {
      Del(item, list, r, |done|);
      assert RemoveAt(r, |done|) == done + s[v + 1..];
    }
  }

  /** dl_list_for_each_safe with a body that deletes the cursor whenever it is in kill: every original
      member is visited once, in order, and the ring left is exactly the undeleted members. */
  method ForEachSafe(list: Node, kill: set<Node>, ghost s: seq<Node>) returns (visited: seq<Node>)
    requires Ring(list, s)
    modifies list, s
    ensures visited == s
    ensures Ring(list, Survivors(s, kill))
    ensures Unlinked(s, kill) && forall x <- s | x in kill :: x.next == null && x.prev == null
  {
    NothingYet(list, s, kill);
    hide Ring, Linked, Survivors, Unlinked;
    var item := list.next;
    var n: Node? := item.next;
    visited := [];
    while item != list
      invariant |visited| <= |s| && visited == s[..|visited|] && Walked(list, s, |visited|, kill)
      invariant item == At(list, s, |visited| + 1) && n == item.next
      decreases |s| - |visited|
    {
      OneMore(list, Survivors(visited, kill), s, |visited|, kill);
      MaybeDelete(list, item, kill, s, |visited|);
      visited := visited + [item];
      item, n := n, n.next;
    }
    assert s[..|s|] == s && Survivors(s, kill) + s[|s|..] == Survivors(s, kill);
    DeletedAreFree(s, kill);
  }

  lemma DeletedAreFree(s: seq<Node>, kill: set<Node>)
    requires Unlinked(s, kill)
    ensures forall x <- s | x in kill :: x.next == null && x.prev == null
  {
  }

  lemma NothingYet(list: Node, s: seq<Node>, kill: set<Node>)
    requires Ring(list, s)
    ensures Walked(list, s, 0, kill) && list.next == At(list, s, 1)
  {
    assert Survivors(s[..0], kill) + s[0..] == s;
    assert Linked(list, s, 0);
  }

  lemma OneMore(list: Node, done: seq<Node>, s: seq<Node>, v: nat, kill: set<Node>)
    requires v < |s| && Distinct(list, s) && Ring(list, done + s[v..])
    requires done == Survivors(s[..v], kill)
    ensures s[v].next == At(list, s, v + 2)
    ensures s[v].prev == list || (s[v].prev in s && s[v].prev !in kill)
    ensures done + s[v..] == done + [s[v]] + s[v + 1..]
    ensures s[..v + 1] == s[..v] + [s[v]]
    ensures Survivors(s[..v + 1], kill) == done + if s[v] in kill then [] else [s[v]]
    ensures forall x <- s[..v] :: x != list && x != s[v] && (v + 1 < |s| ==> x != s[v + 1])
  {
    var r := done + s[v..];
    assert r[|done|] == s[v];
    assert Linked(list, r, |done|) && Linked(list, r, |done| + 1);
    assert v + 1 < |s| ==> r[|done| + 1] == s[v + 1];
    assert s[..v + 1][..v] == s[..v];
    if done != [] {
      SurvivorsBelong(s[..v], kill, done[|done| - 1]);
    }
  }

  // ---- whole runs

  datatype Op = Push(item: Node) | Append(item: Node) | Remove(item: Node)

  ghost function Without(s: seq<Node>, x: Node): seq<Node> {
    if s == [] then [] else if s[0] == x then s[1..] else [s[0]] + Without(s[1..], x)
  }

  ghost function After(s: seq<Node>, op: Op): seq<Node> {
    match op
    case Push(x) => [x] + s
    case Append(x) => s + [x]
    case Remove(x) => Without(s, x)
  }

  /** Only a node outside the ring may be added and only a member deleted. */
  ghost predicate Legal(list: Node, s: seq<Node>, op: Op) {
    if op.Remove? then op.item in s else op.item != list && op.item !in s
  }

  ghost predicate LegalRun(list: Node, s: seq<Node>, ops: seq<Op>)
    decreases ops
  {
    ops == [] || (Legal(list, s, ops[0]) && LegalRun(list, After(s, ops[0]), ops[1..]))
  }

  ghost function Result(s: seq<Node>, ops: seq<Op>): seq<Node>
    decreases ops
  {
    if ops == [] then s else Result(After(s, ops[0]), ops[1..])
  }

  lemma {:induction false} WithoutIsRemoveAt(s: seq<Node>, k: nat)
    requires k < |s| && forall i | 0 <= i < k :: s[i] != s[k]
    ensures Without(s, s[k]) == RemoveAt(s, k)
  {
    if k > 0 {
      WithoutIsRemoveAt(s[1..], k - 1);
    }
  }

  method Step(list: Node, op: Op, ghost s: seq<Node>, ghost all: set<Node>) returns (ghost t: seq<Node>)
    requires Ring(list, s) && Legal(list, s, op)
    requires list in all && op.item in all && forall x <- s :: x in all
    modifies all
    ensures Ring(list, t) && forall x <- t :: x in all
    ensures t == After(s, op)
  {
    assert Linked(list, s, 0) && Linked(list, s, |s|);
    match op {
      case Push(x) =>
        t := [x] + s;
        Add(list, x, s);
      case Append(x) =>
        t := s + [x];
        AddTail(list, x, s);
      case Remove(x) =>
        ghost var k :| 0 <= k < |s| && s[k] == x;
        assert Linked(list, s, k) && Linked(list, s, k + 1);
        WithoutIsRemoveAt(s, k);
        t := RemoveAt(s, k);
        Del(x, list, s, k);
    }
  }

  /** Any legal run of additions and deletions leaves a valid ring of exactly the expected members. */
  method Run(list: Node, ops: seq<Op>, ghost s: seq<Node>, ghost all: set<Node>)
    requires Ring(list, s) && LegalRun(list, s, ops)
    requires list in all && (forall x <- s :: x in all) && (forall op <- ops :: op.item in all)
    modifies all
    ensures Ring(list, Result(s, ops))
    decreases |ops|
  {
    if ops != [] {
      ghost var t := Step(list, ops[0], s, all);
      Run(list, ops[1..], t, all);
    }
  }
}
