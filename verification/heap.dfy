/**
 A binary heap parameterised by a strict "ranks ahead of" comparator.

 Storage is 1-based: `items[0]` is a sentinel holding the element type's
 default value and is never read as data; `items[1..]` are the `count` live
 elements; the parent of slot `i` is slot `i / 2`. Heaps are values here: the
 mutating operations return the updated heap.
 */
module Heaps {
  import opened Wrappers
  import opened Orders

  datatype Heap<!T> = Heap(count: nat, items: seq<T>, comparator: (T, T) -> bool)

  /** The storage holds the sentinel slot plus exactly `count` live elements. */
  predicate Shaped<T>(h: Heap<T>) {
    |h.items| == h.count + 1
  }

  function Live<T>(h: Heap<T>): seq<T>
    requires Shaped(h)
  {
    h.items[1..]
  }

  ghost function Elements<T>(h: Heap<T>): multiset<T>
    requires Shaped(h)
  {
    multiset(Live(h))
  }

  /** No live element ranks strictly ahead of its parent. */
  ghost predicate Ordered<T>(a: seq<T>, before: (T, T) -> bool) {
    forall i :: 2 <= i < |a| ==> !before(a[i], a[i / 2])
  }

  /** The whole storage is the sentinel plus the live elements. */
  lemma SentinelSplit<T>(h: Heap<T>)
    requires Shaped(h)
    ensures multiset(h.items) == multiset{h.items[0]} + Elements(h)
  {
    assert h.items == [h.items[0]] + Live(h);
  }

  lemma Cancel<T>(a: T, m1: multiset<T>, m2: multiset<T>)
    requires multiset{a} + m1 == multiset{a} + m2
    ensures m1 == m2
  {
    assert m1 == multiset{a} + m1 - multiset{a};
    assert m2 == multiset{a} + m2 - multiset{a};
  }

  ghost predicate Valid<T(!new)>(h: Heap<T>) {
    Shaped(h) && StrictWeakOrder(h.comparator) && Ordered(h.items, h.comparator)
  }

  // ---------------------------------------------------------------------------
  // Construction and queries
  // ---------------------------------------------------------------------------

  /** `Heap::new`: `default` stands for `T::default()`, the sentinel's value. */
  function New<T>(comparator: (T, T) -> bool, default: T): (h: Heap<T>)
    ensures Shaped(h) && h.comparator == comparator && h.items[0] == default
    ensures Len(h) == 0 && IsEmpty(h) && Elements(h) == multiset{}
    ensures Ordered(h.items, h.comparator)
  {
    Heap(0, [default], comparator)
  }

  function Len<T>(h: Heap<T>): (n: nat)
    ensures Shaped(h) ==> n == |Live(h)| == |Elements(h)|
  {
    h.count
  }

  function IsEmpty<T>(h: Heap<T>): (r: bool)
    ensures Shaped(h) ==> (r <==> Elements(h) == multiset{})
  {
    Len(h) == 0
  }

  // ---------------------------------------------------------------------------
  // Index arithmetic (1-based)
  // ---------------------------------------------------------------------------

  function ParentIdx(i: nat): (p: nat)
    ensures i == 2 * p || i == 2 * p + 1
  {
    i / 2
  }

  function LeftChildIdx(i: nat): (c: nat)
    ensures ParentIdx(c) == i && c % 2 == 0
  {
    i * 2
  }

  function RightChildIdx(i: nat): (c: nat)
    ensures ParentIdx(c) == i && c % 2 == 1
  {
    LeftChildIdx(i) + 1
  }

  /** Slot `i` has at least one live child. */
  function ChildrenPresent<T>(h: Heap<T>, i: nat): (r: bool)
    ensures 1 <= i ==> (r <==> exists c :: 2 <= c <= h.count && ParentIdx(c) == i)
  {
    var left := LeftChildIdx(i);
    assert 1 <= i && left <= h.count ==> 2 <= left && ParentIdx(left) == i;
    left <= h.count
  }

  /**
   The child of `i` the comparator prefers: the left one when it is the only
   live one or ranks ahead of the right one, else the right one (so a tie goes
   right). Under a strict weak order no live child of `i` ranks ahead of it.
   */
  function SmallestChildIdx<T(!new)>(h: Heap<T>, i: nat): (r: nat)
    requires Shaped(h)
    ensures ParentIdx(r) == i
    ensures 1 <= i && ChildrenPresent(h, i) ==> 2 <= r <= h.count
    ensures 1 <= i && ChildrenPresent(h, i) && StrictWeakOrder(h.comparator) ==>
      forall c :: 2 <= c <= h.count && ParentIdx(c) == i ==> !h.comparator(h.items[c], h.items[r])
  {
    if RightChildIdx(i) > h.count then
      LeftChildIdx(i)
    else
      var left := LeftChildIdx(i);
      var right := RightChildIdx(i);
      if h.comparator(h.items[left], h.items[right]) then left else right
  }

  // ---------------------------------------------------------------------------
  // Vec primitives
  // ---------------------------------------------------------------------------

  /** `Vec::swap`. */
  function Swap<T>(s: seq<T>, i: nat, j: nat): (r: seq<T>)
    requires i < |s| && j < |s|
    ensures |r| == |s| && r[i] == s[j] && r[j] == s[i]
    ensures forall k :: 0 <= k < |s| && k != i && k != j ==> r[k] == s[k]
    ensures multiset(r) == multiset(s)
  {
    s[i := s[j]][j := s[i]]
  }

  /** `Vec::swap_remove`: takes out `s[i]` and moves the last element into its slot. */
  function SwapRemove<T>(s: seq<T>, i: nat): (r: (T, seq<T>))
    requires i < |s|
    ensures r.0 == s[i] && |r.1| == |s| - 1
    ensures multiset(r.1) + multiset{r.0} == multiset(s)
    ensures i < |r.1| ==> r.1[i] == s[|s| - 1]
    ensures forall k :: 0 <= k < |r.1| && k != i ==> r.1[k] == s[k]
  {
    var last := |s| - 1;
    assert s == s[..last] + [s[last]];
    if i == last then
      (s[i], s[..last])
    else
      (s[i], s[..last][i := s[last]])
  }

  // ---------------------------------------------------------------------------
  // Sift-up
  // ---------------------------------------------------------------------------

  /** Every parent link holds except the one from slot `k` up to its parent. */
  ghost predicate OrderedExceptAt<T>(a: seq<T>, before: (T, T) -> bool, k: nat) {
    forall i :: 2 <= i < |a| && i != k ==> !before(a[i], a[i / 2])
  }

  /** The children of slot `k` do not rank ahead of `k`'s parent. */
  ghost predicate SkipsOver<T>(a: seq<T>, before: (T, T) -> bool, k: nat)
    requires k < |a|
  {
    2 <= k ==> forall c :: 2 <= c < |a| && c / 2 == k ==> !before(a[c], a[k / 2])
  }

  /** Swapping slot `k` with its parent moves the single broken link one level up. */
  lemma SwapUpStep<T(!new)>(a: seq<T>, before: (T, T) -> bool, k: nat)
    requires StrictWeakOrder(before) && 2 <= k < |a|
    requires OrderedExceptAt(a, before, k) && SkipsOver(a, before, k)
    requires before(a[k], a[k / 2])
    ensures OrderedExceptAt(Swap(a, k, k / 2), before, k / 2)
    ensures SkipsOver(Swap(a, k, k / 2), before, k / 2)
  {
  }

  /**
   `heapify_up`: moves the element at `start` towards the root while it ranks
   strictly ahead of its parent.
   */
  method HeapifyUp<T(!new)>(h: Heap<T>, start: nat) returns (h': Heap<T>)
    requires Shaped(h) && StrictWeakOrder(h.comparator) && 1 <= start <= h.count
    requires OrderedExceptAt(h.items, h.comparator, start) && SkipsOver(h.items, h.comparator, start)
    ensures Valid(h') && h'.count == h.count && h'.comparator == h.comparator
    ensures multiset(h'.items) == multiset(h.items) && h'.items[0] == h.items[0]
  {
    h' := h;
    var idx := start;
    while idx > 1
      invariant Shaped(h') && h'.count == h.count && h'.comparator == h.comparator
      invariant 1 <= idx <= h.count
      invariant multiset(h'.items) == multiset(h.items) && h'.items[0] == h.items[0]
      invariant OrderedExceptAt(h'.items, h.comparator, idx) && SkipsOver(h'.items, h.comparator, idx)
      decreases idx
    {
      var parent := ParentIdx(idx);
      if h'.comparator(h'.items[idx], h'.items[parent]) {
        SwapUpStep(h'.items, h'.comparator, idx);
        h' := h'.(items := Swap(h'.items, idx, parent));
        idx := parent;
      } else {
        break;
      }
    }
  }

  /** `add`: appends `value` and sifts it up. */
  method Add<T(!new)>(h: Heap<T>, value: T) returns (h': Heap<T>)
    requires Valid(h)
    ensures Valid(h') && h'.comparator == h.comparator
    ensures Len(h') == Len(h) + 1
    ensures Elements(h') == Elements(h) + multiset{value}
    ensures h'.items[0] == h.items[0]
  {
    var grown := Heap(h.count + 1, h.items + [value], h.comparator);
    h' := HeapifyUp(grown, grown.count);
    SentinelSplit(h);
    SentinelSplit(grown);
    SentinelSplit(h');
    assert multiset(grown.items) == multiset(h.items) + multiset{value};
    assert grown.items[0] == h.items[0];
    Cancel(h.items[0], Elements(h'), Elements(h) + multiset{value});
  }

  // ---------------------------------------------------------------------------
  // Sift-down
  // ---------------------------------------------------------------------------

  /** Every parent link holds except those from the children of slot `k` up to `k`. */
  ghost predicate OrderedBelow<T>(a: seq<T>, before: (T, T) -> bool, k: nat) {
    forall i :: 2 <= i < |a| && i / 2 != k ==> !before(a[i], a[i / 2])
  }

  /** Swapping slot `k` with its preferred child `c` moves the broken links one level down. */
  lemma SwapDownStep<T(!new)>(a: seq<T>, before: (T, T) -> bool, k: nat, c: nat)
    requires StrictWeakOrder(before) && 1 <= k && 2 <= c < |a| && c / 2 == k
    requires OrderedBelow(a, before, k) && SkipsOver(a, before, k)
    requires forall d :: 2 <= d < |a| && d / 2 == k ==> !before(a[d], a[c])
    requires before(a[c], a[k])
    ensures OrderedBelow(Swap(a, k, c), before, c)
    ensures SkipsOver(Swap(a, k, c), before, c)
  {
  }

  /**
   `heapify_down`: moves the element at `start` away from the root while its
   preferred child ranks strictly ahead of it.
   */
  method HeapifyDown<T(!new)>(h: Heap<T>, start: nat) returns (h': Heap<T>)
    requires Shaped(h) && StrictWeakOrder(h.comparator) && 1 <= start <= h.count
    requires OrderedBelow(h.items, h.comparator, start) && SkipsOver(h.items, h.comparator, start)
    ensures Valid(h') && h'.count == h.count && h'.comparator == h.comparator
    ensures multiset(h'.items) == multiset(h.items) && h'.items[0] == h.items[0]
  {
    h' := h;
    var idx := start;
    while ChildrenPresent(h', idx)
      invariant Shaped(h') && h'.count == h.count && h'.comparator == h.comparator
      invariant 1 <= idx <= h.count
      invariant multiset(h'.items) == multiset(h.items) && h'.items[0] == h.items[0]
      invariant OrderedBelow(h'.items, h.comparator, idx) && SkipsOver(h'.items, h.comparator, idx)
      decreases h.count - idx
    {
      var child := SmallestChildIdx(h', idx);
      if h'.comparator(h'.items[child], h'.items[idx]) {
        SwapDownStep(h'.items, h'.comparator, idx, child);
        h' := h'.(items := Swap(h'.items, idx, child));
        idx := child;
      } else {
        break;
      }
    }
  }

  // ---------------------------------------------------------------------------
  // Extraction
  // ---------------------------------------------------------------------------

  /** In heap-ordered storage slot `i` does not rank ahead of the root: induction up the parent links. */
  lemma {:induction false} RootFirstAt<T(!new)>(a: seq<T>, before: (T, T) -> bool, i: nat)
    requires StrictWeakOrder(before) && Ordered(a, before) && 1 <= i < |a|
    ensures !before(a[i], a[1])
    decreases i
  {
    if i > 1 {
      RootFirstAt(a, before, i / 2);
    }
  }

  lemma RootFirst<T(!new)>(h: Heap<T>)
    requires Valid(h) && 1 <= h.count
    ensures forall y :: y in Elements(h) ==> !h.comparator(y, h.items[1])
  {
    forall y | y in Elements(h)
      ensures !h.comparator(y, h.items[1])
    {
      var j :| 0 <= j < |Live(h)| && Live(h)[j] == y;
      RootFirstAt(h.items, h.comparator, j + 1);
    }
  }

  /** The storage left by `swap_remove(1)` satisfies what `heapify_down(1)` needs. */
  lemma RemovedRootLeavesOrderedBelow<T(!new)>(a: seq<T>, rest: seq<T>, before: (T, T) -> bool)
    requires Ordered(a, before) && 2 <= |a| && |rest| == |a| - 1
    requires forall k :: 0 <= k < |rest| && k != 1 ==> rest[k] == a[k]
    ensures OrderedBelow(rest, before, 1)
  {
  }

  /**
   `Iterator::next`: `None` when empty; otherwise the root, with the last
   element moved to the root and sifted down.
   */
  method Next<T(!new)>(h: Heap<T>) returns (x: Option<T>, h': Heap<T>)
    requires Valid(h)
    ensures Valid(h') && h'.comparator == h.comparator
    ensures IsEmpty(h) ==> x == None && h' == h
    ensures !IsEmpty(h) ==> x.Some? && Len(h') == Len(h) - 1
    ensures !IsEmpty(h) ==> Elements(h) == Elements(h') + multiset{x.value}
    ensures !IsEmpty(h) ==> forall y :: y in Elements(h') ==> !h.comparator(y, x.value)
  {
    if IsEmpty(h) {
      return None, h;
    }
    var top;
    top, h' := TakeRoot(h);
    x := Some(top);
  }

  /** The non-empty branch of `next`: `swap_remove(1)` and sift the moved element down. */
  method TakeRoot<T(!new)>(h: Heap<T>) returns (top: T, h': Heap<T>)
    requires Valid(h) && !IsEmpty(h)
    ensures Valid(h') && h'.comparator == h.comparator && Len(h') == Len(h) - 1
    ensures Elements(h) == Elements(h') + multiset{top}
    ensures forall y :: y in Elements(h') ==> !h.comparator(y, top)
  {
    RootFirst(h);
    var (taken, rest) := SwapRemove(h.items, 1);
    top := taken;
    var shrunk := Heap(h.count - 1, rest, h.comparator);
    SentinelSplit(h);
    SentinelSplit(shrunk);
    if IsEmpty(shrunk) {
      h' := shrunk;
    } else {
      RemovedRootLeavesOrderedBelow(h.items, rest, h.comparator);
      h' := HeapifyDown(shrunk, 1);
      SentinelSplit(h');
    }
    Cancel(h.items[0], Elements(h), Elements(h') + multiset{top});
  }

  // ---------------------------------------------------------------------------
  // Repeated extraction
  // ---------------------------------------------------------------------------

  /** `out` is in rank order and nothing still in `pending` is ranked ahead of any of it. */
  ghost predicate TakenInOrder<T>(before: (T, T) -> bool, out: seq<T>, pending: multiset<T>) {
    && (forall i, j :: 0 <= i < j < |out| ==> !before(out[j], out[i]))
    && (forall i, y :: 0 <= i < |out| && y in pending ==> !before(y, out[i]))
  }

  /** Taking a value nothing else pending is ranked ahead of keeps the taken prefix in order. */
  lemma TakeNext<T>(before: (T, T) -> bool, out: seq<T>, pending: multiset<T>, x: T, pending': multiset<T>)
    requires TakenInOrder(before, out, pending)
    requires pending == pending' + multiset{x}
    requires forall y :: y in pending' ==> !before(y, x)
    ensures TakenInOrder(before, out + [x], pending')
    ensures multiset(out + [x]) + pending' == multiset(out) + pending
  {
    var out' := out + [x];
    forall i, j | 0 <= i < j < |out'|
      ensures !before(out'[j], out'[i])
    {
      if j == |out| {
        assert x in pending;
      }
    }
    forall i, y | 0 <= i < |out'| && y in pending'
      ensures !before(y, out'[i])
    {
      if i < |out| {
        assert y in pending;
      }
    }
  }

  /**
   Calls `next` until it returns `None`, collecting what it yields: exactly the
   live elements, each one not ranked behind any that follows it. The heap left
   over is empty, so further calls keep returning `None`.
   */
  method Drain<T(!new)>(h: Heap<T>) returns (out: seq<T>, rest: Heap<T>)
    requires Valid(h)
    ensures multiset(out) == Elements(h) && |out| == Len(h)
    ensures forall i, j :: 0 <= i < j < |out| ==> !h.comparator(out[j], out[i])
    ensures Valid(rest) && rest.comparator == h.comparator && IsEmpty(rest)
  {
    out := [];
    rest := h;
    while !IsEmpty(rest)
      invariant Valid(rest) && rest.comparator == h.comparator
      invariant multiset(out) + Elements(rest) == Elements(h)
      invariant TakenInOrder(h.comparator, out, Elements(rest))
      decreases Len(rest)
    {
      var x: Option<T>;
      ghost var before := rest;
      x, rest := Next(rest);
      TakeNext(h.comparator, out, Elements(before), x.value, Elements(rest));
      out := out + [x.value];
    }
  }

  /** Calls `add` once per value, in order. */
  method AddAll<T(!new)>(h: Heap<T>, values: seq<T>) returns (h': Heap<T>)
    requires Valid(h)
    ensures Valid(h') && h'.comparator == h.comparator
    ensures Len(h') == Len(h) + |values| && Elements(h') == Elements(h) + multiset(values)
  {
    h' := h;
    var k := 0;
    while k < |values|
      invariant 0 <= k <= |values|
      invariant Valid(h') && h'.comparator == h.comparator
      invariant Len(h') == Len(h) + k && Elements(h') == Elements(h) + multiset(values[..k])
    {
      h' := Add(h', values[k]);
      assert values[..k + 1] == values[..k] + [values[k]];
      k := k + 1;
    }
    assert values[..k] == values;
  }

  /** Starts from `Heap::new` and calls `add` once per value, in order. */
  method FromValues<T(!new)>(comparator: (T, T) -> bool, default: T, values: seq<T>) returns (h: Heap<T>)
    requires StrictWeakOrder(comparator)
    ensures Valid(h) && h.comparator == comparator
    ensures Len(h) == |values| && Elements(h) == multiset(values)
  {
    h := AddAll(New(comparator, default), values);
  }
}
