/**
 Intrusive linked lists: objects of a fixed collection that point at one another. A
 list is named by the places of its objects in the collection.
 */
module Links {

  ghost predicate Distinct(list: seq<nat>) {
    forall i, j :: 0 <= i < j < |list| ==> list[i] != list[j]
  }

  ghost predicate InPool<T>(pool: seq<T>, list: seq<nat>) {
    forall i :: 0 <= i < |list| ==> list[i] < |pool|
  }

  /** The object at position `i` of the list, or `nil` past its end. */
  ghost function At<T>(pool: seq<T>, nil: T, list: seq<nat>, i: nat): T
    requires InPool(pool, list)
  {
    if i < |list| then pool[list[i]] else nil
  }

  /** With these next pointers the objects of the list are linked in its order, from `head` to `nil`. */
  ghost predicate Linked<T>(pool: seq<T>, nexts: seq<T>, nil: T, list: seq<nat>, head: T)
    requires InPool(pool, list) && |nexts| == |pool|
  {
    && head == At(pool, nil, list, 0)
    && (forall i, j :: 0 <= i && j == i + 1 && j < |list| ==> nexts[list[i]] == pool[list[j]])
    && (list != [] ==> nexts[list[|list| - 1]] == nil)
  }

  /** The head of a list, and the object after position `i`. */
  lemma Follow<T>(pool: seq<T>, nexts: seq<T>, nil: T, list: seq<nat>, head: T, i: nat)
    requires InPool(pool, list) && |nexts| == |pool| && Linked(pool, nexts, nil, list, head)
    ensures head == At(pool, nil, list, 0)
    ensures i < |list| ==> nexts[list[i]] == At(pool, nil, list, i + 1)
  {
  }

  /** A list without its first `k` objects is linked from the object after them. */
  lemma LinkedTail<T>(pool: seq<T>, nexts: seq<T>, nil: T, list: seq<nat>, head: T, k: nat)
    requires InPool(pool, list) && |nexts| == |pool| && Linked(pool, nexts, nil, list, head) && k <= |list|
    ensures InPool(pool, list[k..]) && Linked(pool, nexts, nil, list[k..], At(pool, nil, list, k))
  {
    var r := list[k..];
    assert forall i :: 0 <= i < |r| ==> r[i] == list[k + i];
  }

  /** Moving the pointer before position `i` past it takes that object off the list. */
  lemma Unlinked<T>(pool: seq<T>, nexts: seq<T>, nil: T, list: seq<nat>, head: T, i: nat)
    requires InPool(pool, list) && |nexts| == |pool| && Linked(pool, nexts, nil, list, head)
    requires Distinct(list) && 0 < i < |list|
    ensures var r := list[..i] + list[i + 1..];
            InPool(pool, r) && Linked(pool, nexts[list[i - 1] := At(pool, nil, list, i + 1)], nil, r, head)
  {
    var r := list[..i] + list[i + 1..];
    assert forall k :: 0 <= k < i ==> r[k] == list[k];
    assert forall k :: i <= k < |r| ==> r[k] == list[k + 1];
  }

  lemma Pushed<T>(pool: seq<T>, nexts: seq<T>, nil: T, list: seq<nat>, head: T, t: nat)
    requires InPool(pool, list) && |nexts| == |pool| && Linked(pool, nexts, nil, list, head)
    requires t < |pool| && t !in list
    ensures InPool(pool, [t] + list) && Linked(pool, nexts[t := head], nil, [t] + list, pool[t])
  {
    var r := [t] + list;
    assert forall k :: 1 <= k < |r| ==> r[k] == list[k - 1];
  }

  /** Links of objects off the list do not matter. */
  lemma StillLinked<T>(pool: seq<T>, nexts: seq<T>, nil: T, list: seq<nat>, head: T, t: nat, next: T)
    requires InPool(pool, list) && |nexts| == |pool| && Linked(pool, nexts, nil, list, head)
    requires t < |pool| && t !in list
    ensures Linked(pool, nexts[t := next], nil, list, head)
  {
  }

  /** Pointing the last object of the list at an object off the list, which points nowhere, appends it. */
  lemma Appended<T>(pool: seq<T>, nexts: seq<T>, nil: T, list: seq<nat>, head: T, t: nat)
    requires InPool(pool, list) && |nexts| == |pool| && Linked(pool, nexts, nil, list, head)
    requires Distinct(list) && t < |pool| && t !in list
    ensures InPool(pool, list + [t]) && Distinct(list + [t])
    ensures list == [] ==> Linked(pool, nexts[t := nil], nil, [t], pool[t])
    ensures list != [] ==> Linked(pool, nexts[list[|list| - 1] := pool[t]][t := nil], nil, list + [t], head)
  {
    if list != [] {
      var last := |list| - 1;
      var nexts' := nexts[list[last] := pool[t]][t := nil];
      var r := list + [t];
      forall i, j | 0 <= i && j == i + 1 && j < |r| ensures nexts'[r[i]] == pool[r[j]] {
        if i < last { assert list[i] != list[last]; }
      }
    }
  }

  lemma DistinctCut(list: seq<nat>, a: nat, b: nat)
    requires a <= b < |list| && Distinct(list)
    ensures Distinct(list[..a] + list[b + 1..]) && list[b] !in list[..a] + list[b + 1..]
  {
    var r := list[..a] + list[b + 1..];
    assert forall i :: 0 <= i < |r| ==> r[i] == list[if i < a then i else i - a + b + 1];
  }

  /** Taking the object at position `k` off a list: the pointer at it, or the head, moves on to what it points at. */
  lemma RemovedAt<T>(pool: seq<T>, nexts: seq<T>, nil: T, list: seq<nat>, head: T, k: nat)
    requires InPool(pool, list) && |nexts| == |pool| && Linked(pool, nexts, nil, list, head)
    requires Distinct(list) && k < |list|
    ensures var r, next := list[..k] + list[k + 1..], nexts[list[k]];
            && InPool(pool, r) && Distinct(r) && list[k] !in r
            && Linked(pool, if k == 0 then nexts else nexts[list[k - 1] := next], nil, r, if k == 0 then next else head)
  {
    hide Linked, Distinct;
    Follow(pool, nexts, nil, list, head, k);
    DistinctCut(list, k, k);
    if k == 0 {
      LinkedTail(pool, nexts, nil, list, head, 1);
      assert list[..0] + list[1..] == list[1..];
    } else {
      Unlinked(pool, nexts, nil, list, head, k);
    }
  }
}
