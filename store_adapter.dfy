/**
 * The read primitives of the document store, over one collection kept as a
 * sequence of records in insertion order.
 * A filter document is modelled as a predicate on records.
 */
module StoreAdapter {
  import opened Wrappers

  /** `findOne(filter)`: the position of the first record the filter matches. */
  function FindFirst<T(==,!new)>(records: seq<T>, matches: T -> bool): (r: Option<nat>)
    ensures r.Some? ==> r.value < |records| && matches(records[r.value])
    ensures r.Some? ==> forall j :: 0 <= j < r.value ==> !matches(records[j])
    ensures r.None? <==> forall x :: x in records ==> !matches(x)
  {
    if records == [] then None
    else if matches(records[0]) then Some(0)
    else match FindFirst(records[1..], matches)
      case None => None
      case Some(i) => Some(i + 1)
  }

  /** `find(filter)`: every record the filter matches, in collection order. */
  function Find<T(==,!new)>(records: seq<T>, matches: T -> bool): (r: seq<T>)
    ensures forall x :: x in r <==> x in records && matches(x)
    ensures |r| <= |records|
  {
    if records == [] then []
    else (if matches(records[0]) then [records[0]] else []) + Find(records[1..], matches)
  }

  /** `countDocuments(filter)`: how many records the filter matches. */
  function CountDocuments<T(==,!new)>(records: seq<T>, matches: T -> bool): (n: nat)
    ensures n == |Find(records, matches)|
    ensures n == 0 <==> forall x :: x in records ==> !matches(x)
  {
    if records == [] then 0
    else (if matches(records[0]) then 1 else 0) + CountDocuments(records[1..], matches)
  }

  /** Finding over two consecutive runs of records is finding over each, in order. */
  lemma {:induction false} FindConcat<T(!new)>(a: seq<T>, b: seq<T>, matches: T -> bool)
    ensures Find(a + b, matches) == Find(a, matches) + Find(b, matches)
  {
    if a == [] {
      assert a + b == b;
    } else {
      assert (a + b)[1..] == a[1..] + b;
      FindConcat(a[1..], b, matches);
    }
  }

  /** Inserting a record at the end of the collection: `find` gains it exactly when it matches. */
  lemma FindAfterInsert<T(!new)>(records: seq<T>, x: T, matches: T -> bool)
    ensures Find(records + [x], matches) == Find(records, matches) + (if matches(x) then [x] else [])
    ensures CountDocuments(records + [x], matches) == CountDocuments(records, matches) + (if matches(x) then 1 else 0)
  {
    FindConcat(records, [x], matches);
    assert Find([x], matches) == (if matches(x) then [x] else []) + Find([x][1..], matches);
  }

  /** A filter every record matches (`{}`) returns the whole collection in order. */
  lemma {:induction false} FindEverything<T(!new)>(records: seq<T>, matches: T -> bool)
    requires forall x :: x in records ==> matches(x)
    ensures Find(records, matches) == records
  {
    if records != [] {
      FindEverything(records[1..], matches);
    }
  }

  /** Two collections the filter cannot tell apart position by position give the same `findOne` answer. */
  lemma {:induction false} FindFirstPointwise<T(!new), U(!new)>(a: seq<T>, p: T -> bool, b: seq<U>, q: U -> bool)
    requires |a| == |b|
    requires forall i :: 0 <= i < |a| ==> p(a[i]) == q(b[i])
    ensures FindFirst(a, p) == FindFirst(b, q)
  {
    if a != [] {
      FindFirstPointwise(a[1..], p, b[1..], q);
    }
  }
}
