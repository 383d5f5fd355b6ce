/** Sets of identities as increasing vectors: sort, dedup, binary search (`src/scrape.rs:569-586`). */
module HashSets {
  import opened Basics

  predicate Ascending(ids: seq<u64>) {
    forall i, j | 0 <= i < j < |ids| :: ids[i] <= ids[j]
  }

  predicate Increasing(ids: seq<u64>) {
    forall i, j | 0 <= i < j < |ids| :: ids[i] < ids[j]
  }

  function Elements(ids: seq<u64>): set<u64> {
    set id | id in ids
  }

  function Insert(id: u64, ids: seq<u64>): seq<u64> {
    if ids == [] || id <= ids[0] then [id] + ids else [ids[0]] + Insert(id, ids[1..])
  }

  lemma {:induction false} InsertElements(id: u64, ids: seq<u64>)
    ensures forall x :: x in Insert(id, ids) <==> x == id || x in ids
  {
    if ids != [] && id > ids[0] {
      InsertElements(id, ids[1..]);
      assert ids == [ids[0]] + ids[1..];
    }
  }

  lemma {:induction false} InsertAscends(id: u64, ids: seq<u64>)
    requires Ascending(ids)
    ensures Ascending(Insert(id, ids))
  {
    if ids != [] && id > ids[0] {
      var tail := Insert(id, ids[1..]);
      InsertAscends(id, ids[1..]);
      InsertElements(id, ids[1..]);
      forall k | 0 <= k < |tail|
        ensures ids[0] <= tail[k]
      {
        assert tail[k] in tail;
      }
    }
  }

  /** The standard library's sort. */
  function Sort(ids: seq<u64>): seq<u64> {
    if ids == [] then [] else Insert(ids[0], Sort(ids[1..]))
  }

  lemma {:induction false} SortSorts(ids: seq<u64>)
    ensures Ascending(Sort(ids))
    ensures forall x :: x in Sort(ids) <==> x in ids
  {
    if ids != [] {
      SortSorts(ids[1..]);
      InsertElements(ids[0], Sort(ids[1..]));
      InsertAscends(ids[0], Sort(ids[1..]));
    }
  }

  /** Drop every element equal to the one kept before it. */
  method Dedup(ids: seq<u64>) returns (r: seq<u64>)
    requires Ascending(ids)
    ensures Increasing(r) && Elements(r) == Elements(ids)
  {
    r := [];
    for i := 0 to |ids|
      invariant Increasing(r)
      invariant forall x :: x in r <==> x in ids[..i]
      invariant r != [] ==> i > 0 && r[|r| - 1] == ids[i - 1]
    {
      TakeSnoc(ids, i);
      if r == [] || r[|r| - 1] != ids[i] {
        forall k | 0 <= k < |r|
          ensures r[k] < ids[i]
        {
          assert r[k] in r && r[k] in ids[..i];
        }
        r := r + [ids[i]];
      }
    }
    assert ids[..|ids|] == ids;
  }

  /** Halve the stretch that starts at the last known element not above `id`, then look at it. */
  method BinarySearch(ids: seq<u64>, id: u64) returns (found: Option<nat>)
    requires Increasing(ids)
    ensures found.Some? ==> found.value < |ids| && ids[found.value] == id
    ensures found.None? ==> id !in ids
  {
    if ids == [] {
      return None;
    }
    var base: nat, size: nat := 0, |ids|;
    while size > 1
      invariant 1 <= size && base + size <= |ids|
      invariant base > 0 ==> ids[base] <= id
      invariant base + size < |ids| ==> id < ids[base + size]
    {
      var half := size / 2;
      if ids[base + half] <= id {
        base := base + half;
      }
      size := size - half;
    }
    found := if ids[base] == id then Some(base) else None;
  }

  lemma {:induction false} IncreasingSize(ids: seq<u64>)
    requires Increasing(ids)
    ensures |Elements(ids)| == |ids|
  {
    if ids != [] {
      var init, last := ids[..|ids| - 1], ids[|ids| - 1];
      IncreasingSize(init);
      assert ids == init + [last];
      assert Elements(ids) == Elements(init) + {last};
    }
  }

  /** A set has one increasing vector, so comparing vectors compares sets. */
  lemma {:induction false} IncreasingIsUnique(a: seq<u64>, b: seq<u64>)
    requires Increasing(a) && Increasing(b) && Elements(a) == Elements(b)
    ensures a == b
  {
    IncreasingSize(a);
    IncreasingSize(b);
    if a != [] {
      var k := |a| - 1;
      LastIsLargest(a, b);
      LastIsLargest(b, a);
      assert Elements(a[..k]) == Elements(b[..k]) by {
        WithoutLast(a);
        WithoutLast(b);
      }
      IncreasingIsUnique(a[..k], b[..k]);
      assert a == a[..k] + [a[k]] && b == b[..k] + [b[k]];
    }
  }

  lemma LastIsLargest(a: seq<u64>, b: seq<u64>)
    requires Increasing(a) && Elements(a) == Elements(b) && a != [] && b != []
    ensures b[|b| - 1] <= a[|a| - 1]
  {
    assert b[|b| - 1] in Elements(b);
    var i :| 0 <= i < |a| && a[i] == b[|b| - 1];
  }

  lemma WithoutLast(a: seq<u64>)
    requires Increasing(a) && a != []
    ensures Elements(a[..|a| - 1]) == Elements(a) - {a[|a| - 1]}
  {
    assert a == a[..|a| - 1] + [a[|a| - 1]];
  }
}
