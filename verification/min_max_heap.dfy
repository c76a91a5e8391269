/**
 The two ready-made heaps over a totally ordered element type: `new_min`
 ranks smaller values ahead (`<`), `new_max` ranks larger values ahead (`>`).
 Elements are integers; `0` is their default value and fills the sentinel slot.
 */
module MinMaxHeaps {
  import opened Wrappers
  import opened Orders
  import opened Heaps

  /** `Heap::new_min` (and `MinHeap::new`, which delegates to it). */
  function NewMin(): (h: Heap<int>)
    ensures Valid(h) && IsEmpty(h) && Elements(h) == multiset{}
    ensures forall a, b :: h.comparator(a, b) <==> a < b
  {
    New((a: int, b: int) => a < b, 0)
  }

  /** `Heap::new_max` (and `MaxHeap::new`, which delegates to it). */
  function NewMax(): (h: Heap<int>)
    ensures Valid(h) && IsEmpty(h) && Elements(h) == multiset{}
    ensures forall a, b :: h.comparator(a, b) <==> a > b
  {
    New((a: int, b: int) => a > b, 0)
  }

  /** Adding every value to a min-heap and draining it yields them in ascending order. */
  method DrainMin(values: seq<int>) returns (out: seq<int>)
    ensures multiset(out) == multiset(values)
    ensures forall i, j :: 0 <= i < j < |out| ==> out[i] <= out[j]
  {
    var h := FromValues(NewMin().comparator, 0, values);
    var rest;
    out, rest := Drain(h);
  }

  /** Adding every value to a max-heap and draining it yields them in descending order. */
  method DrainMax(values: seq<int>) returns (out: seq<int>)
    ensures multiset(out) == multiset(values)
    ensures forall i, j :: 0 <= i < j < |out| ==> out[i] >= out[j]
  {
    var h := FromValues(NewMax().comparator, 0, values);
    var rest;
    out, rest := Drain(h);
  }

  /**
   When `best` is ranked strictly ahead of every element of `others`, the value
   `next` hands out of a heap holding `others` plus `best` is `best`.
   */
  lemma TakesBest<T(!new)>(before: (T, T) -> bool, others: multiset<T>, rest: multiset<T>, x: T, best: T)
    requires StrictWeakOrder(before)
    requires forall y :: y in others ==> before(best, y)
    requires others + multiset{best} == rest + multiset{x}
    requires forall y :: y in rest ==> !before(y, x)
    ensures x == best && rest == others
  {
    var m := others + multiset{best};
    assert x in m && best in m;
    assert x != best ==> x in others && best in rest;
    assert multiset{best} + others == m == multiset{best} + rest;
    Cancel(best, others, rest);
  }

  /** `next` on a heap holding `best` plus elements it ranks ahead of hands out `best`. */
  method NextOfKnownBest<T(!new)>(h: Heap<T>, best: T, ghost others: multiset<T>) returns (x: Option<T>, h': Heap<T>)
    requires Valid(h) && Elements(h) == others + multiset{best}
    requires forall y :: y in others ==> h.comparator(best, y)
    ensures Valid(h') && h'.comparator == h.comparator
    ensures x == Some(best) && Elements(h') == others
  {
    x, h' := Next(h);
    TakesBest(h.comparator, others, Elements(h'), x.value, best);
  }

  /** A min-heap fed 4, 2, 9, 11 has four elements and yields 2 first. */
  method MinHeapOpening() returns (h: Heap<int>, len: nat, first: Option<int>)
    ensures Valid(h) && h.comparator == NewMin().comparator && Elements(h) == multiset{11} + multiset{9} + multiset{4}
    ensures len == 4 && first == Some(2)
  {
    h := AddAll(NewMin(), [4, 2, 9, 11]);
    len := Len(h);
    assert Elements(h) == multiset{11} + multiset{9} + multiset{4} + multiset{2};
    first, h := NextOfKnownBest(h, 2, multiset{11} + multiset{9} + multiset{4});
  }

  /** A min-heap fed 4, 2, 9, 11 has four elements and yields 2, 4, 9; after adding 1 it yields 1. */
  method MinHeapScenario() returns (len: nat, first: Option<int>, second: Option<int>, third: Option<int>, fourth: Option<int>)
    ensures len == 4
    ensures first == Some(2) && second == Some(4) && third == Some(9) && fourth == Some(1)
  {
    var h;
    h, len, first := MinHeapOpening();
    second, h := NextOfKnownBest(h, 4, multiset{11} + multiset{9});
    third, h := NextOfKnownBest(h, 9, multiset{11});
    h := Add(h, 1);
    fourth, h := NextOfKnownBest(h, 1, multiset{11});
  }

  /** A max-heap fed 4, 2, 9, 11 has four elements and yields 11 first. */
  method MaxHeapOpening() returns (h: Heap<int>, len: nat, first: Option<int>)
    ensures Valid(h) && h.comparator == NewMax().comparator && Elements(h) == multiset{2} + multiset{4} + multiset{9}
    ensures len == 4 && first == Some(11)
  {
    h := AddAll(NewMax(), [4, 2, 9, 11]);
    len := Len(h);
    assert Elements(h) == multiset{2} + multiset{4} + multiset{9} + multiset{11};
    first, h := NextOfKnownBest(h, 11, multiset{2} + multiset{4} + multiset{9});
  }

  /** A max-heap fed 4, 2, 9, 11 has four elements and yields 11, 9, 4; after adding 1 it yields 2. */
  method MaxHeapScenario() returns (len: nat, first: Option<int>, second: Option<int>, third: Option<int>, fourth: Option<int>)
    ensures len == 4
    ensures first == Some(11) && second == Some(9) && third == Some(4) && fourth == Some(2)
  {
    var h;
    h, len, first := MaxHeapOpening();
    second, h := NextOfKnownBest(h, 9, multiset{2} + multiset{4});
    third, h := NextOfKnownBest(h, 4, multiset{2});
    h := Add(h, 1);
    assert Elements(h) == multiset{1} + multiset{2};
    fourth, h := NextOfKnownBest(h, 2, multiset{1});
  }

  /** A fresh max-heap yields `None`, and keeps doing so. */
  method EmptyScenario() returns (first: Option<int>, second: Option<int>)
    ensures first == None && second == None
  {
    var h := NewMax();
    first, h := Next(h);
    second, h := Next(h);
  }
}
