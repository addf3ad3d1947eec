/** Id allocation of the address book, on the sets of keys and free ids alone. */
module Ids {

  /** A non-empty set of ids has an element to pick. */
  lemma NonEmptyHasElement(s: set<int>)
    requires s != {}
    ensures exists x :: x in s
  {
    if forall x :: x !in s {
      assert false;
    }
  }

  /** Some integer above every element of s; only used to bound the id search. */
  ghost function UpperBound(s: set<int>): (b: int)
    ensures forall x :: x in s ==> x < b
  {
    if s == {} then 0
    else
      NonEmptyHasElement(s);
      var y :| y in s;
      var rest := UpperBound(s - {y});
      assert forall x :: x in s ==> x == y || x in s - {y};
      if y + 1 > rest then y + 1 else rest
  }

  /** The first integer >= n that is not in used: where the loop
      `while next_id in data or next_id in free_ids: next_id += 1` stops. */
  function Advance(n: int, used: set<int>): (r: int)
    ensures n <= r && r !in used
    ensures forall k :: n <= k < r ==> k in used
    decreases UpperBound(used) - n
  {
    if n in used then Advance(n + 1, used) else n
  }

  /** The two conditions of the loop's exit pin its result down. */
  lemma AdvanceUnique(n: int, used: set<int>, r: int)
    requires n <= r && r !in used
    requires forall k :: n <= k < r ==> k in used
    ensures r == Advance(n, used)
  {
  }

  lemma {:induction false} MinExists(s: set<int>)
    requires s != {}
    ensures exists m :: m in s && forall x :: x in s ==> m <= x
  {
    NonEmptyHasElement(s);
    var y :| y in s;
    if s != {y} {
      MinExists(s - {y});
      var m :| m in s - {y} && forall x :: x in s - {y} ==> m <= x;
      assert forall x :: x in s ==> x == y || x in s - {y};
      if y < m {
        assert forall x :: x in s ==> y <= x;
      } else {
        assert forall x :: x in s ==> m <= x;
      }
    } else {
      assert forall x :: x in s ==> y <= x;
    }
  }

  /** `min(free_ids)`. */
  function MinOf(s: set<int>): (m: int)
    requires s != {}
    ensures m in s && forall x :: x in s ==> m <= x
  {
    MinExists(s);
    var m :| m in s && forall x :: x in s ==> m <= x;
    m
  }

  /** The id `add_record` hands out and the state it leaves behind. */
  datatype Allocation = Allocation(id: int, nextId: int, freeIds: set<int>)

  /** `add_record` on ids alone: first advance next_id past every key and free id;
      then take the smallest free id if there is one (next_id stays at the advanced
      candidate), or else the candidate itself, and move next_id one past it. */
  function Allocate(keys: set<int>, nextId: int, freeIds: set<int>): Allocation
  {
    var candidate := Advance(nextId, keys + freeIds);
    if freeIds != {} then
      var m := MinOf(freeIds);
      Allocation(m, candidate, freeIds - {m})
    else
      Allocation(candidate, candidate + 1, freeIds)
  }

  /** The two ways an id is chosen, stated by what the chosen id is. */
  lemma AllocateChoice(keys: set<int>, nextId: int, freeIds: set<int>)
    ensures var a := Allocate(keys, nextId, freeIds);
      && (freeIds != {} ==>
            && a.id in freeIds && (forall x :: x in freeIds ==> a.id <= x)
            && a.freeIds == freeIds - {a.id}
            && a.nextId == Advance(nextId, keys + freeIds))
      && (freeIds == {} ==>
            && nextId <= a.id && a.id !in keys
            && (forall k :: nextId <= k < a.id ==> k in keys)
            && a.nextId == a.id + 1 && a.freeIds == {})
  {
  }

  /** next_id never decreases; when a free id is reused it rests on an id
      that is neither a key nor free. */
  lemma AllocateMonotone(keys: set<int>, nextId: int, freeIds: set<int>)
    ensures var a := Allocate(keys, nextId, freeIds);
      && nextId <= a.nextId
      && (freeIds != {} ==> a.nextId !in keys && a.nextId !in freeIds)
  {
  }

  /** With free ids and keys disjoint the new id is not a key, so no record is
      overwritten, and disjointness holds again once the id becomes a key. */
  lemma AllocateFresh(keys: set<int>, nextId: int, freeIds: set<int>)
    requires keys !! freeIds
    ensures var a := Allocate(keys, nextId, freeIds);
      && a.id !in keys
      && (keys + {a.id}) !! a.freeIds
  {
  }

  /** A freshly loaded book (next_id 1, no free ids) gives out the least
      positive integer that is not a key of the loaded dictionary. */
  lemma AllocateAfterLoad(keys: set<int>)
    ensures var a := Allocate(keys, 1, {});
      && 1 <= a.id && a.id !in keys
      && (forall k :: 1 <= k < a.id ==> k in keys)
  {
  }

  /** Add A, add B, delete A, add C: C gets A's id back although B's id is higher. */
  lemma AllocateReusesFreedId()
    ensures Allocate({}, 1, {}) == Allocation(1, 2, {})
    ensures Allocate({1}, 2, {}) == Allocation(2, 3, {})
    ensures Allocate({2}, 3, {1}).id == 1
  {
    assert Advance(1, {}) == 1;
    assert Advance(2, {1}) == 2;
    assert Advance(3, {2} + {1}) == 3;
  }
}
