/** The address book: an insertion-ordered dictionary id -> record, the next
    candidate id and the pool of ids released by deletion. */
module Directory {
  import opened Wrappers
  import opened Contacts
  import opened Ids

  /** `data.keys()` as a set. */
  function Keys(entries: seq<Entry>): (r: set<int>)
    ensures forall i :: 0 <= i < |entries| ==> entries[i].0 in r
    ensures forall k :: k in r ==> exists i :: 0 <= i < |entries| && entries[i].0 == k
  {
    if entries == [] then {} else {entries[0].0} + Keys(entries[1..])
  }

  /** Appending an item adds its id to the keys. */
  lemma KeysAppend(entries: seq<Entry>, e: Entry)
    ensures Keys(entries + [e]) == Keys(entries) + {e.0}
  {
    var r := entries + [e];
    assert r[|entries|] == e;
    forall k | k in Keys(r) ensures k in Keys(entries) + {e.0} {
      var i :| 0 <= i < |r| && r[i].0 == k;
      if i < |entries| { assert r[i] == entries[i]; }
    }
    forall k | k in Keys(entries) ensures k in Keys(r) {
      var i :| 0 <= i < |entries| && entries[i].0 == k;
      assert r[i] == entries[i];
    }
  }

  /** The ids of a dictionary's items are pairwise different. */
  predicate DistinctIds(entries: seq<Entry>)
  {
    forall i, j :: 0 <= i < j < |entries| ==> entries[i].0 != entries[j].0
  }

  /** `data.values()`, in insertion order. */
  function Values(entries: seq<Entry>): (r: seq<Contact>)
    ensures |r| == |entries|
    ensures forall i :: 0 <= i < |entries| ==> r[i] == entries[i].1
  {
    if entries == [] then [] else [entries[0].1] + Values(entries[1..])
  }

  /** `del data[id]` on the item list: the item with that id goes, the others keep their order. */
  function RemoveId(entries: seq<Entry>, id: int): (r: seq<Entry>)
  {
    if entries == [] then []
    else if entries[0].0 == id then RemoveId(entries[1..], id)
    else [entries[0]] + RemoveId(entries[1..], id)
  }

  /** The tail of a dictionary's items has distinct ids, none equal to the head's. */
  lemma DistinctTail(entries: seq<Entry>)
    requires entries != [] && DistinctIds(entries)
    ensures DistinctIds(entries[1..])
    ensures entries[0].0 !in Keys(entries[1..])
  {
    var tail := entries[1..];
    forall i, j | 0 <= i < j < |tail| ensures tail[i].0 != tail[j].0 {
      assert tail[i] == entries[i + 1] && tail[j] == entries[j + 1];
    }
    forall k | 0 <= k < |tail| ensures tail[k].0 != entries[0].0 {
      assert tail[k] == entries[k + 1];
    }
  }

  /** Deleting an id removes exactly that key. */
  lemma {:induction false} RemoveIdKeys(entries: seq<Entry>, id: int)
    ensures Keys(RemoveId(entries, id)) == Keys(entries) - {id}
    decreases |entries|
  {
    if entries != [] {
      RemoveIdKeys(entries[1..], id);
      var rest := RemoveId(entries[1..], id);
      if entries[0].0 != id {
        assert ([entries[0]] + rest)[1..] == rest;
      }
    }
  }

  /** Deleting an id keeps exactly the items with another id. */
  lemma {:induction false} RemoveIdMembers(entries: seq<Entry>, id: int)
    ensures forall e :: e in RemoveId(entries, id) <==> e in entries && e.0 != id
    decreases |entries|
  {
    if entries != [] {
      RemoveIdMembers(entries[1..], id);
      assert entries == [entries[0]] + entries[1..];
    }
  }

  /** Deleting keeps the ids distinct. */
  lemma {:induction false} RemoveIdDistinct(entries: seq<Entry>, id: int)
    requires DistinctIds(entries)
    ensures DistinctIds(RemoveId(entries, id))
    decreases |entries|
  {
    if entries != [] {
      DistinctTail(entries);
      RemoveIdDistinct(entries[1..], id);
      if entries[0].0 != id {
        var rest := RemoveId(entries[1..], id);
        RemoveIdKeys(entries[1..], id);
        var r := [entries[0]] + rest;
        forall i, j | 0 <= i < j < |r| ensures r[i].0 != r[j].0 {
          assert r[j] == rest[j - 1];
          if i > 0 { assert r[i] == rest[i - 1]; }
        }
      }
    }
  }

  /** Deleting an absent id changes nothing, order included. */
  lemma {:induction false} RemoveIdAbsent(entries: seq<Entry>, id: int)
    requires id !in Keys(entries)
    ensures RemoveId(entries, id) == entries
    decreases |entries|
  {
    if entries != [] {
      RemoveIdAbsent(entries[1..], id);
      assert entries == [entries[0]] + entries[1..];
    }
  }

  const PageSize := 5

  /** The pages `__next__` hands out one after the other: slices of five, the last shorter. */
  function Pages<T>(s: seq<T>): seq<seq<T>>
    decreases |s|
  {
    if s == [] then []
    else if |s| <= PageSize then [s]
    else [s[..PageSize]] + Pages(s[PageSize..])
  }

  function Flatten<T>(pages: seq<seq<T>>): seq<T>
  {
    if pages == [] then [] else pages[0] + Flatten(pages[1..])
  }

  /** Concatenating the pages gives back the values in order. */
  lemma {:induction false} PagesFlatten<T>(s: seq<T>)
    ensures Flatten(Pages(s)) == s
    decreases |s|
  {
    if |s| > PageSize {
      PagesFlatten(s[PageSize..]);
      assert s == s[..PageSize] + s[PageSize..];
    }
  }

  /** There are ceil(n / 5) pages; every page holds five values except the
      last, which holds one to five. */
  lemma {:induction false} PagesShape<T>(s: seq<T>)
    ensures |Pages(s)| == (|s| + PageSize - 1) / PageSize
    ensures forall k :: 0 <= k < |Pages(s)| ==> 1 <= |Pages(s)[k]| <= PageSize
    ensures forall k :: 0 <= k < |Pages(s)| - 1 ==> |Pages(s)[k]| == PageSize
    decreases |s|
  {
    if |s| > PageSize {
      PagesShape(s[PageSize..]);
    }
  }

  /** Page k is the slice `[5k : 5k + 5]` that `__next__` returns when its cursor is 5k. */
  lemma {:induction false} PageAt<T>(s: seq<T>, k: nat)
    requires k < |Pages(s)|
    ensures PageSize * k < |s|
    ensures Pages(s)[k] == s[PageSize * k..if PageSize * k + PageSize < |s| then PageSize * k + PageSize else |s|]
    decreases |s|
  {
    if |s| > PageSize && k > 0 {
      PageAt(s[PageSize..], k - 1);
      assert s[PageSize..][PageSize * (k - 1)..] == s[PageSize * k..];
    }
  }

  class AddressBook {
    var data: seq<Entry>
    var nextId: int
    var freeIds: set<int>
    /** The iterator's cursor `self.current`. */
    var current: nat

    /** The ids are distinct (they are dictionary keys) and no free id is a live key. */
    ghost predicate Valid()
      reads this
    {
      DistinctIds(data) && Keys(data) !! freeIds
    }

    constructor ()
      ensures Valid()
      ensures data == [] && nextId == 1 && freeIds == {} && current == 0
    {
      data := [];
      nextId := 1;
      freeIds := {};
      current := 0;
    }

    /** `load_address_book`: the loaded dictionary with next_id reset to 1 and no
        free ids; a missing file or any other failure gives an empty book. */
    constructor Load(outcome: LoadOutcome<seq<Entry>>)
      requires outcome.Loaded? ==> DistinctIds(outcome.value)
      ensures Valid()
      ensures data == (if outcome.Loaded? then outcome.value else [])
      ensures nextId == 1 && freeIds == {} && current == 0
    {
      data := if outcome.Loaded? then outcome.value else [];
      nextId := 1;
      freeIds := {};
      current := 0;
    }

    method AddRecord(record: Record) returns (id: int)
      requires Valid()
      modifies this`data, this`nextId, this`freeIds, record`id
      ensures Valid()
      ensures Allocation(id, nextId, freeIds) == Allocate(Keys(old(data)), old(nextId), old(freeIds))
      ensures id !in Keys(old(data)) && old(nextId) <= nextId
      ensures data == old(data) + [(id, record.Value())] && record.Value() == old(record.Value())
      ensures Keys(data) == Keys(old(data)) + {id}
      ensures record.id == Some(id)
    {
      ghost var used := Keys(data) + freeIds;
      while nextId in Keys(data) || nextId in freeIds
        invariant data == old(data) && freeIds == old(freeIds)
        invariant old(nextId) <= nextId
        invariant forall k :: old(nextId) <= k < nextId ==> k in used
        decreases UpperBound(used) - nextId
      {
        nextId := nextId + 1;
      }
      AdvanceUnique(old(nextId), used, nextId);
      if freeIds != {} {
        id := MinOf(freeIds);
        freeIds := freeIds - {id};
      } else {
        id := nextId;
        nextId := nextId + 1;
      }
      AllocateFresh(Keys(data), old(nextId), old(freeIds));
      record.id := Some(id);
      KeysAppend(data, (id, record.Value()));
      data := data + [(id, record.Value())];
    }

    /** The state change in `delete_record_by_id` and `delete_record` once the id
        is read: a present id leaves the dictionary and joins the free ids; an
        absent id changes nothing. */
    method DeleteById(id: int) returns (deleted: bool)
      requires Valid()
      modifies this`data, this`freeIds
      ensures Valid()
      ensures deleted <==> id in Keys(old(data))
      ensures data == RemoveId(old(data), id)
      ensures !deleted ==> data == old(data)
      ensures Keys(data) == Keys(old(data)) - {id}
      ensures freeIds == if deleted then old(freeIds) + {id} else old(freeIds)
    {
      deleted := id in Keys(data);
      RemoveIdKeys(data, id);
      RemoveIdDistinct(data, id);
      if deleted {
        data := RemoveId(data, id);
        freeIds := freeIds + {id};
      } else {
        RemoveIdAbsent(data, id);
      }
    }

    /** `__iter__`: restart the pages at the first value. */
    method Iter()
      modifies this`current
      ensures current == 0
    {
      current := 0;
    }

    /** `__next__`: the next slice of at most five values, or None for StopIteration. */
    method Next() returns (page: Option<seq<Contact>>)
      modifies this`current
      ensures old(current) < |data| ==>
        && page == Some(Values(data)[old(current)..if old(current) + PageSize < |data| then old(current) + PageSize else |data|])
        && current == old(current) + PageSize
      ensures old(current) >= |data| ==> page == None && current == old(current)
    {
      if current < |data| {
        var values := Values(data);
        var stop := if current + PageSize < |data| then current + PageSize else |data|;
        page := Some(values[current..stop]);
        current := current + PageSize;
      } else {
        page := None;
      }
    }
  }
}
