/** The record store held by the top-level view: the initial load, append
    on submit and removal by original indices. */
module Store {
  import opened Wrappers

  /** The initial sequence: the stored one when the key holds an item,
      the bundled sample set otherwise. */
  function InitialRecords<T>(stored: Option<seq<T>>, sample: seq<T>): (r: seq<T>)
    ensures stored.Some? ==> r == stored.value
    ensures stored.None? ==> r == sample
  {
    match stored
    case Some(records) => records
    case None => sample
  }

  /** `[...providers, provider]`: every earlier record keeps its position,
      the new one comes last. */
  function Append<T>(records: seq<T>, record: T): (r: seq<T>)
    ensures |r| == |records| + 1
    ensures forall i :: 0 <= i < |records| ==> r[i] == records[i]
    ensures r[|records|] == record
  {
    records + [record]
  }

  /** `prev.filter((_, i) => !indices.includes(i))` */
  function Remove<T>(records: seq<T>, indices: seq<int>): (r: seq<T>)
    ensures |r| <= |records|
  {
    if records == [] then []
    else
      var last := |records| - 1;
      Remove(records[..last], indices) + (if last in indices then [] else [records[last]])
  }

  /** How many positions below `n` are not named in `indices`: the new
      position of a kept record at `n`. */
  function KeptBelow(n: nat, indices: seq<int>): (k: nat)
    ensures k <= n
  {
    if n == 0 then 0 else KeptBelow(n - 1, indices) + (if n - 1 in indices then 0 else 1)
  }

  /** As many records remain as there are unnamed positions. */
  lemma {:induction false} RemoveCount<T>(records: seq<T>, indices: seq<int>)
    ensures |Remove(records, indices)| == KeptBelow(|records|, indices)
  {
    if records != [] {
      RemoveCount(records[..|records| - 1], indices);
    }
  }

  /** Removal keeps the record at every unnamed index `i`, in original
      order: it moves to position `KeptBelow(i)`. With `RemoveCount` and
      `KeptBelowStrict` this pins the result down completely. */
  lemma {:induction false} RemoveKeeps<T>(records: seq<T>, indices: seq<int>, i: nat)
    requires i < |records| && i !in indices
    ensures KeptBelow(i, indices) < |Remove(records, indices)|
    ensures Remove(records, indices)[KeptBelow(i, indices)] == records[i]
  {
    var last := |records| - 1;
    var front := records[..last];
    var kept := Remove(front, indices);
    var tail: seq<T> := if last in indices then [] else [records[last]];
    assert Remove(records, indices) == kept + tail;
    if i < last {
      RemoveKeeps(front, indices, i);
      assert kept[KeptBelow(i, indices)] == front[i];
    } else {
      RemoveCount(front, indices);
    }
  }

  lemma {:induction false} KeptBelowMonotone(m: nat, n: nat, indices: seq<int>)
    requires m <= n
    ensures KeptBelow(m, indices) <= KeptBelow(n, indices)
    decreases n - m
  {
    if m < n {
      KeptBelowMonotone(m, n - 1, indices);
    }
  }

  /** Kept positions are distinct: a later kept index lands further right. */
  lemma KeptBelowStrict(i: nat, j: nat, indices: seq<int>)
    requires i < j && i !in indices
    ensures KeptBelow(i, indices) < KeptBelow(j, indices)
  {
    KeptBelowMonotone(i + 1, j, indices);
  }

  /** The set of in-range positions that `indices` names. */
  function Named(n: nat, indices: seq<int>): set<int>
  {
    set i | 0 <= i < n && i in indices
  }

  /** The result is `n` minus the number of distinct in-range indices:
      repeated and out-of-range indices have no extra effect. */
  lemma {:induction false} RemoveLength<T>(records: seq<T>, indices: seq<int>)
    ensures |Remove(records, indices)| == |records| - |Named(|records|, indices)|
  {
    RemoveCount(records, indices);
    KeptPlusNamed(|records|, indices);
  }

  lemma {:induction false} KeptPlusNamed(n: nat, indices: seq<int>)
    ensures KeptBelow(n, indices) + |Named(n, indices)| == n
  {
    if n > 0 {
      KeptPlusNamed(n - 1, indices);
      if n - 1 in indices {
        assert Named(n, indices) == Named(n - 1, indices) + {n - 1};
      } else {
        assert Named(n, indices) == Named(n - 1, indices);
      }
    }
  }

  /** Only which in-range positions are named matters, not their order,
      repetition or any out-of-range entries. */
  lemma {:induction false} RemoveDependsOnlyOnNamed<T>(records: seq<T>, indices: seq<int>, others: seq<int>)
    requires Named(|records|, indices) == Named(|records|, others)
    ensures Remove(records, indices) == Remove(records, others)
  {
    if records != [] {
      var last := |records| - 1;
      assert last in Named(|records|, indices) <==> last in indices;
      assert last in Named(|records|, others) <==> last in others;
      assert Named(last, indices) == Named(last, others) by {
        forall i ensures i in Named(last, indices) <==> i in Named(last, others) {
          assert i in Named(last, indices) <==> 0 <= i < last && i in Named(|records|, indices);
          assert i in Named(last, others) <==> 0 <= i < last && i in Named(|records|, others);
        }
      }
      RemoveDependsOnlyOnNamed(records[..last], indices, others);
    }
  }

  /** Naming no in-range position removes nothing. */
  lemma {:induction false} RemoveNothing<T>(records: seq<T>, indices: seq<int>)
    requires forall i :: 0 <= i < |records| ==> i !in indices
    ensures Remove(records, indices) == records
  {
    if records != [] {
      var last := |records| - 1;
      RemoveNothing(records[..last], indices);
      assert records[..last] + [records[last]] == records;
    }
  }

  /** Removing the index of a record just appended undoes the append. */
  lemma RemoveAppended<T>(records: seq<T>, record: T)
    ensures Remove(Append(records, record), [|records|]) == records
  {
    var grown := Append(records, record);
    assert grown[..|records|] == records;
    RemoveNothing(records, [|records|]);
  }

  /** Indices refer to the backing sequence: removing `[2]` from
      `[A, B, C]` yields `[A, B]`. */
  lemma RemoveLastOfThree<T>(a: T, b: T, c: T)
    ensures Remove([a, b, c], [2]) == [a, b]
  {
    assert [a, b, c][..2] == [a, b];
    RemoveNothing([a, b], [2]);
  }
}
