/** The in-memory entity store behind the `Repository` contract: a map from
    identity to record plus a counter for the next identity.

    Identity allocation: `GetNextId` reports the counter without advancing it,
    and `Add` stores its record at the counter and then advances it. So two bare
    `Add`s on a fresh store occupy ids 0 and 1, and a `GetNextId` followed by an
    `Add` stores the record at the id that was reported. The counter never goes
    back, so an id is never reused, even after `Delete`. */
module Repo {
  import opened Errors

  /** The occupied ids below `n`, in ascending order. */
  function OccupiedBelow<T>(m: map<int, T>, n: int): seq<int>
    decreases n
  {
    if n <= 0 then [] else OccupiedBelow(m, n - 1) + (if n - 1 in m then [n - 1] else [])
  }

  /** The records stored at the ids below `n`, in ascending order of id. */
  function ValuesBelow<T>(m: map<int, T>, n: int): seq<T>
    decreases n
  {
    if n <= 0 then [] else ValuesBelow(m, n - 1) + (if n - 1 in m then [m[n - 1]] else [])
  }

  /** Every id `OccupiedBelow` lists lies in [0, n) and is occupied. */
  lemma {:induction false} OccupiedBelowSound<T>(m: map<int, T>, n: int)
    ensures forall j :: 0 <= j < |OccupiedBelow(m, n)| ==>
      0 <= OccupiedBelow(m, n)[j] < n && OccupiedBelow(m, n)[j] in m
    decreases n
  {
    if n > 0 {
      OccupiedBelowSound(m, n - 1);
    }
  }

  /** `OccupiedBelow` lists its ids in strictly ascending order. */
  lemma {:induction false} OccupiedBelowAscending<T>(m: map<int, T>, n: int)
    ensures forall j, k :: 0 <= j < k < |OccupiedBelow(m, n)| ==>
      OccupiedBelow(m, n)[j] < OccupiedBelow(m, n)[k]
    decreases n
  {
    if n > 0 {
      OccupiedBelowAscending(m, n - 1);
      var prev := OccupiedBelow(m, n - 1);
      if n - 1 in m {
        OccupiedBelowSound(m, n - 1);
        assert OccupiedBelow(m, n) == prev + [n - 1];
        assert forall j :: 0 <= j < |prev| ==> prev[j] < n - 1;
      } else {
        assert OccupiedBelow(m, n) == prev;
      }
    }
  }

  /** Every occupied id in [0, n) appears in `OccupiedBelow`. */
  lemma {:induction false} OccupiedBelowComplete<T>(m: map<int, T>, n: int)
    ensures forall id :: 0 <= id < n && id in m ==> id in OccupiedBelow(m, n)
    decreases n
  {
    if n > 0 {
      OccupiedBelowComplete(m, n - 1);
    }
  }

  /** `OccupiedBelow` lists every occupied id in [0, n) exactly once, in
      strictly ascending order, and nothing else. */
  lemma {:induction false} OccupiedBelowSpec<T>(m: map<int, T>, n: int)
    ensures forall j :: 0 <= j < |OccupiedBelow(m, n)| ==>
      0 <= OccupiedBelow(m, n)[j] < n && OccupiedBelow(m, n)[j] in m
    ensures forall j, k :: 0 <= j < k < |OccupiedBelow(m, n)| ==>
      OccupiedBelow(m, n)[j] < OccupiedBelow(m, n)[k]
    ensures forall id :: 0 <= id < n && id in m ==> id in OccupiedBelow(m, n)
  {
    OccupiedBelowSound(m, n);
    OccupiedBelowAscending(m, n);
    OccupiedBelowComplete(m, n);
  }

  /** `ValuesBelow` holds, position by position, the records at the ids
      `OccupiedBelow` lists. */
  lemma {:induction false} ValuesBelowSpec<T>(m: map<int, T>, n: int)
    ensures |ValuesBelow(m, n)| == |OccupiedBelow(m, n)|
    ensures forall j :: 0 <= j < |ValuesBelow(m, n)| ==>
      OccupiedBelow(m, n)[j] in m && ValuesBelow(m, n)[j] == m[OccupiedBelow(m, n)[j]]
    decreases n
  {
    OccupiedBelowSpec(m, n);
    if n > 0 {
      ValuesBelowSpec(m, n - 1);
    }
  }

  class Store<T(==)> {
    /** The records, keyed by identity. */
    var items: map<int, T>
    /** The identity the next `Add` will use. */
    var next: nat

    /** Every occupied identity was issued earlier: it lies below the counter. */
    ghost predicate Valid()
      reads this
    {
      forall id :: id in items ==> 0 <= id < next
    }

    /** A fresh, empty store whose first identity is 0. */
    constructor ()
      ensures Valid()
      ensures items == map[] && next == 0
    {
      items := map[];
      next := 0;
    }

    /** Stores `e` at the current counter and advances the counter; never fails. */
    method Add(e: T) returns (err: Option<Error>)
      requires Valid()
      modifies this
      ensures Valid()
      ensures err == None
      ensures old(next) !in old(items)
      ensures items == old(items)[old(next) := e]
      ensures next == old(next) + 1
    {
      items := items[next := e];
      next := next + 1;
      err := None;
    }

    /** Replaces the record at an occupied `id`; fails with DefunctEntity otherwise. */
    method Update(id: int, e: T) returns (err: Option<Error>)
      requires Valid()
      modifies this
      ensures Valid() && next == old(next)
      ensures id in old(items) ==> err == None && items == old(items)[id := e]
      ensures id !in old(items) ==> err == Some(DefunctEntity) && items == old(items)
    {
      if id in items {
        items := items[id := e];
        err := None;
      } else {
        err := Some(DefunctEntity);
      }
    }

    /** The record at `id`, or DefunctEntity when `id` is not occupied. */
    method Get(id: int) returns (r: Result<T>)
      ensures r.Ok? <==> id in items
      ensures id in items ==> r == Ok(items[id])
      ensures id !in items ==> r == Err(DefunctEntity)
    {
      if id in items {
        r := Ok(items[id]);
      } else {
        r := Err(DefunctEntity);
      }
    }

    /** Removes the record at an occupied `id`; fails with DefunctEntity otherwise. */
    method Delete(id: int) returns (err: Option<Error>)
      requires Valid()
      modifies this
      ensures Valid() && next == old(next)
      ensures id in old(items) ==> err == None && items == old(items) - {id}
      ensures id !in old(items) ==> err == Some(DefunctEntity) && items == old(items)
    {
      if id in items {
        items := items - {id};
        err := None;
      } else {
        err := Some(DefunctEntity);
      }
    }

    /** Whether a record currently occupies `id`. */
    method CheckIdExist(id: int) returns (b: bool)
      ensures b <==> id in items
    {
      b := id in items;
    }

    /** The identity the next `Add` will store at: never occupied, and above
        every occupied identity. */
    method GetNextId() returns (id: int)
      requires Valid()
      ensures id !in items
      ensures forall k :: k in items ==> k < id
      ensures id == next
    {
      id := next;
    }

    /** A snapshot of every stored record, in ascending order of identity. */
    method GetArray() returns (s: seq<T>)
      requires Valid()
      ensures s == ValuesBelow(items, next)
      ensures forall x :: x in s <==> x in items.Values
    {
      s := ValuesBelow(items, next);
      ghost var ids := OccupiedBelow(items, next);
      OccupiedBelowSpec(items, next);
      ValuesBelowSpec(items, next);
      forall id | id in items
        ensures items[id] in s
      {
        assert id in ids;
        var j :| 0 <= j < |ids| && ids[j] == id;
        assert s[j] == items[id];
      }
    }
  }
}
