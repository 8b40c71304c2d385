/** A binary-heap priority queue kept in a growable list.

    The source has two near-identical heaps: one compares its elements
    directly, the other stores a (key, value) pair whose key is computed once,
    at enqueue time, by a key selector. Both are one class here: the plain
    queue is the keyed one whose selector is the identity. */
module PriorityQueues {
  import opened Outcomes

  /** One stored element: its priority key and its payload. */
  datatype Entry<K, V> = Entry(key: K, value: V)

  /** compare(a, b); a separate name keeps the comparer laws below from
      being instantiated on every comparison the heap makes. */
  ghost function Compared<K>(compare: (K, K) -> int, a: K, b: K): int {
    compare(a, b)
  }

  /** The contract of a comparer: the sign of compare(a, b) is the opposite
      of the sign of compare(b, a) (so compare(a, a) == 0), and "at most" is
      transitive. */
  ghost predicate IsComparer<K(!new)>(compare: (K, K) -> int) {
    && (forall a, b {:trigger Compared(compare, a, b)} ::
          Compared(compare, a, b) < 0 <==> Compared(compare, b, a) > 0)
    && (forall a, b, c {:trigger Compared(compare, a, b), Compared(compare, b, c)} ::
          Compared(compare, a, b) <= 0 && Compared(compare, b, c) <= 0 ==> Compared(compare, a, c) <= 0)
  }

  /** The default comparer of integers (the heap keys of the Huffman builder). */
  function CompareInts(a: int, b: int): (r: int)
    ensures r < 0 <==> a < b
    ensures r == 0 <==> a == b
  {
    if a < b then -1 else if a > b then 1 else 0
  }

  lemma CompareIntsIsComparer()
    ensures IsComparer(CompareInts)
  {
  }

  /** s with the entries at a and b exchanged. */
  function Swapped<X>(s: seq<X>, a: nat, b: nat): (t: seq<X>)
    requires a < |s| && b < |s|
    ensures |t| == |s| && t[a] == s[b] && t[b] == s[a]
    ensures forall i :: 0 <= i < |s| && i != a && i != b ==> t[i] == s[i]
  {
    s[a := s[b]][b := s[a]]
  }

  function Parent(i: nat): nat
    requires i > 0
  {
    (i - 1) / 2
  }

  class PriorityQueue<K(!new), V> {
    /** The heap, in level order; the source's list. */
    var data: seq<Entry<K, V>>
    const keySelector: V -> K
    const comparer: (K, K) -> int
    /** When set, the comparer is reversed and the queue hands out its
        largest element first. */
    const isDescending: bool

    /** The comparison the heap is ordered by: negative when a comes out
        before b. */
    function Compare(a: K, b: K): int {
      if isDescending then comparer(b, a) else comparer(a, b)
    }

    /** Under a comparer, a comes out before b exactly when the comparer
        puts a first or, for a descending queue, when it puts b first. */
    lemma CompareReverses(a: K, b: K)
      requires IsComparer(comparer)
      ensures !isDescending ==> (Compare(a, b) < 0 <==> Compared(comparer, a, b) < 0)
      ensures isDescending ==> (Compare(a, b) < 0 <==> Compared(comparer, a, b) > 0)
      ensures isDescending ==> (Compare(a, b) <= 0 <==> Compared(comparer, a, b) >= 0)
    {
      assert Compared(comparer, b, a) < 0 <==> Compared(comparer, a, b) > 0;
    }

    /** Every non-root entry does not come out before its parent. */
    ghost predicate HeapOrdered(s: seq<Entry<K, V>>) {
      forall i :: 0 < i < |s| ==> Compare(s[Parent(i)].key, s[i].key) <= 0
    }

    ghost predicate Valid()
      reads this
    {
      && IsComparer(comparer)
      && KeysSelected(data)
      && HeapOrdered(data)
    }

    /** The stored entries, as a bag. */
    ghost function Contents(): multiset<Entry<K, V>>
      reads this
    {
      multiset(data)
    }

    constructor (keySelector: V -> K, comparer: (K, K) -> int, isDescending: bool := true)
      requires IsComparer(comparer)
      ensures Valid() && Contents() == multiset{}
      ensures this.keySelector == keySelector && this.comparer == comparer
      ensures this.isDescending == isDescending
    {
      this.keySelector := keySelector;
      this.comparer := comparer;
      this.isDescending := isDescending;
      data := [];
    }

    /** The number of stored entries. */
    function Count(): (n: nat)
      reads this
      ensures n == |Contents()|
    {
      |data|
    }

    lemma CompareReflexive(a: K)
      requires IsComparer(comparer)
      ensures Compare(a, a) <= 0
    {
      assert Compared(comparer, a, a) < 0 <==> Compared(comparer, a, a) > 0;
    }

    lemma CompareFlip(a: K, b: K)
      requires IsComparer(comparer)
      ensures Compare(a, b) >= 0 ==> Compare(b, a) <= 0
      ensures Compare(a, b) < 0 ==> Compare(b, a) > 0
    {
      assert Compared(comparer, a, b) < 0 <==> Compared(comparer, b, a) > 0;
    }

    lemma CompareTransitive(a: K, b: K, c: K)
      requires IsComparer(comparer)
      requires Compare(a, b) <= 0 && Compare(b, c) <= 0
      ensures Compare(a, c) <= 0
    {
      if isDescending {
        assert Compared(comparer, c, b) <= 0 && Compared(comparer, b, a) <= 0;
      } else {
        assert Compared(comparer, a, b) <= 0 && Compared(comparer, b, c) <= 0;
      }
    }

    /** In a heap-ordered list the root is the best element: nothing comes
        out before it. */
    lemma {:induction false} RootIsBest(s: seq<Entry<K, V>>, i: nat)
      requires IsComparer(comparer) && HeapOrdered(s) && i < |s|
      ensures Compare(s[0].key, s[i].key) <= 0
      decreases i
    {
      if i == 0 {
        CompareReflexive(s[0].key);
      } else {
        RootIsBest(s, Parent(i));
        CompareTransitive(s[0].key, s[Parent(i)].key, s[i].key);
      }
    }

    lemma RootBeatsAll(s: seq<Entry<K, V>>)
      requires IsComparer(comparer) && HeapOrdered(s) && |s| > 0
      ensures forall x :: x in multiset(s) ==> Compare(s[0].key, x.key) <= 0
    {
      forall x | x in multiset(s)
        ensures Compare(s[0].key, x.key) <= 0
      {
        var i :| 0 <= i < |s| && s[i] == x;
        RootIsBest(s, i);
      }
    }

    /** Exchanges two positions of the list. */
    method Swap(a: nat, b: nat)
      requires a < |data| && b < |data|
      modifies this
      ensures data == Swapped(old(data), a, b)
    {
      var tmp := data[a];
      data := data[a := data[b]];
      data := data[b := tmp];
    }

    ghost predicate KeysSelected(s: seq<Entry<K, V>>) {
      forall i :: 0 <= i < |s| ==> s[i].key == keySelector(s[i].value)
    }

    /** Heap order everywhere except, possibly, between position c and its parent. */
    ghost predicate OrderedExceptAbove(s: seq<Entry<K, V>>, c: nat) {
      forall i :: 0 < i < |s| && i != c ==> Compare(s[Parent(i)].key, s[i].key) <= 0
    }

    /** Heap order everywhere except, possibly, between position p and its children. */
    ghost predicate OrderedExceptBelow(s: seq<Entry<K, V>>, p: nat) {
      forall i :: 0 < i < |s| && Parent(i) != p ==> Compare(s[Parent(i)].key, s[i].key) <= 0
    }

    /** The children of c do not come out before c's parent. */
    ghost predicate GrandparentFirst(s: seq<Entry<K, V>>, c: nat) {
      0 < c < |s| ==> forall j :: 0 < j < |s| && Parent(j) == c ==> Compare(s[Parent(c)].key, s[j].key) <= 0
    }

    lemma SwapKeepsEntries(s: seq<Entry<K, V>>, a: nat, b: nat)
      requires a < |s| && b < |s| && KeysSelected(s)
      ensures multiset(Swapped(s, a, b)) == multiset(s) && KeysSelected(Swapped(s, a, b))
    {
    }

    /** One exchange of Enqueue's loop moves the possible violation from c up to its parent. */
    lemma SiftUpStep(s: seq<Entry<K, V>>, c: nat)
      requires IsComparer(comparer) && 0 < c < |s|
      requires Compare(s[c].key, s[Parent(c)].key) < 0
      requires OrderedExceptAbove(s, c) && GrandparentFirst(s, c)
      ensures OrderedExceptAbove(Swapped(s, c, Parent(c)), Parent(c))
      ensures GrandparentFirst(Swapped(s, c, Parent(c)), Parent(c))
    {
      var p := Parent(c);
      var t := Swapped(s, c, p);
      CompareFlip(s[c].key, s[p].key);
      forall i | 0 < i < |t| && i != p
        ensures Compare(t[Parent(i)].key, t[i].key) <= 0
      {
        if i == c {
        } else if Parent(i) == p {
          CompareTransitive(s[c].key, s[p].key, s[i].key);
        } else if Parent(i) == c {
        } else {
          assert t[Parent(i)] == s[Parent(i)] && t[i] == s[i];
        }
      }
      if p > 0 {
        forall j | 0 < j < |t| && Parent(j) == p
          ensures Compare(t[Parent(p)].key, t[j].key) <= 0
        {
          if j != c {
            CompareTransitive(s[Parent(p)].key, s[p].key, s[j].key);
          }
        }
      }
    }

    /** Appends the entry for item and sifts it up towards the root while it
        comes out before its parent. */
    method Enqueue(item: V)
      requires Valid()
      modifies this
      ensures Valid()
      ensures Contents() == old(Contents()) + multiset{Entry(keySelector(item), item)}
      ensures Count() == old(Count()) + 1
    {
      data := data + [Entry(keySelector(item), item)];
      var childIndex := |data| - 1;
      while childIndex > 0
        invariant 0 <= childIndex < |data| == old(|data|) + 1
        invariant multiset(data) == old(multiset(data)) + multiset{Entry(keySelector(item), item)}
        invariant KeysSelected(data)
        invariant OrderedExceptAbove(data, childIndex) && GrandparentFirst(data, childIndex)
      {
        var parentIndex := Parent(childIndex);
        if Compare(data[childIndex].key, data[parentIndex].key) >= 0 {
          CompareFlip(data[childIndex].key, data[parentIndex].key);
          break;
        }
        SiftUpStep(data, childIndex);
        SwapKeepsEntries(data, childIndex, parentIndex);
        Swap(childIndex, parentIndex);
        childIndex := parentIndex;
      }
    }

    /** Removes and returns the best entry's value: the last entry moves to
        the root and sifts down, each time towards its better child, while
        that child comes out before it. On an empty queue the source indexes
        past the end of its list; here that is the EmptyQueue error. */
    method Dequeue() returns (r: Result<V>)
      requires Valid()
      modifies this
      ensures Valid()
      ensures old(Count()) == 0 ==> r == Failure(EmptyQueue) && data == old(data)
      ensures old(Count()) > 0 ==>
                && r == Success(old(data[0].value))
                && old(data[0]) in old(Contents())
                && Contents() == old(Contents()) - multiset{old(data[0])}
                && Count() == old(Count()) - 1
      ensures old(Count()) > 0 ==> forall x :: x in old(Contents()) ==> Compare(old(data[0].key), x.key) <= 0
    {
      if |data| == 0 {
        return Failure(EmptyQueue);
      }
      RootBeatsAll(data);
      var lastIndex := |data| - 1;
      var firstItem := data[0];
      ghost var s := data;
      data := data[0 := data[lastIndex]];
      data := data[..lastIndex];
      RemoveRoot(s);
      SiftDown();
      r := Success(firstItem.value);
    }

    /** Dequeue's loop: moves the root down, each time exchanging it with
        its better child, while that child comes out before it. */
    method SiftDown()
      requires IsComparer(comparer) && KeysSelected(data)
      requires OrderedExceptBelow(data, 0) && GrandparentFirst(data, 0)
      modifies this
      ensures HeapOrdered(data) && KeysSelected(data) && multiset(data) == old(multiset(data))
    {
      var lastIndex := |data| - 1;
      var parentIndex := 0;
      while true
        invariant parentIndex <= |data| || |data| == 0
        invariant lastIndex == |data| - 1
        invariant multiset(data) == old(multiset(data))
        invariant KeysSelected(data)
        invariant OrderedExceptBelow(data, parentIndex) && GrandparentFirst(data, parentIndex)
        decreases |data| - parentIndex
      {
        var childIndex := parentIndex * 2 + 1;
        if childIndex > lastIndex {
          SiftDownAtLeaf(data, parentIndex);
          break;
        }
        childIndex := BetterChildIndex(parentIndex);
        if Compare(data[parentIndex].key, data[childIndex].key) <= 0 {
          SiftDownDone(data, parentIndex, childIndex);
          break;
        }
        SiftDownStep(data, parentIndex, childIndex);
        SwapKeepsEntries(data, parentIndex, childIndex);
        Swap(parentIndex, childIndex);
        parentIndex := childIndex;
      }
    }

    /** The child of p that Dequeue's loop follows: the right one when it
        comes out strictly before the left one, otherwise the left one. */
    method BetterChildIndex(p: nat) returns (c: nat)
      requires IsComparer(comparer) && 2 * p + 1 < |data|
      ensures BetterChild(data, p, c)
      ensures c == 2 * p + 2 ==> Compare(data[c].key, data[c - 1].key) < 0
    {
      c := p * 2 + 1;
      var rightChild := c + 1;
      if rightChild < |data| && Compare(data[rightChild].key, data[c].key) < 0 {
        c := rightChild;
      }
      ChosenChildIsBetter(data, p, c);
    }

    /** Moving the last entry to the root and dropping the last position
        removes exactly the root and leaves the order intact below the root. */
    lemma RemoveRoot(s: seq<Entry<K, V>>)
      requires |s| > 0 && KeysSelected(s) && HeapOrdered(s)
      ensures var t := s[0 := s[|s| - 1]][..|s| - 1];
        && multiset(t) == multiset(s) - multiset{s[0]}
        && KeysSelected(t) && OrderedExceptBelow(t, 0) && GrandparentFirst(t, 0)
    {
      var n := |s| - 1;
      var t := s[0 := s[n]][..n];
      if n > 0 {
        assert s == [s[0]] + s[1..n] + [s[n]];
        assert t == [s[n]] + s[1..n];
      }
      forall i | 0 < i < |t| && Parent(i) != 0
        ensures Compare(t[Parent(i)].key, t[i].key) <= 0
      {
        assert t[Parent(i)] == s[Parent(i)] && t[i] == s[i];
      }
    }

    /** c is the child of p that comes out first. */
    ghost predicate BetterChild(s: seq<Entry<K, V>>, p: nat, c: nat) {
      && 0 < c < |s| && Parent(c) == p
      && forall j :: 0 < j < |s| && Parent(j) == p ==> Compare(s[c].key, s[j].key) <= 0
    }

    /** Dequeue's choice: the right child when it comes out strictly before the left one. */
    lemma ChosenChildIsBetter(s: seq<Entry<K, V>>, p: nat, c: nat)
      requires IsComparer(comparer) && c < |s|
      requires c == 2 * p + 1 || c == 2 * p + 2
      requires c == 2 * p + 2 ==> Compare(s[c].key, s[c - 1].key) < 0
      requires c == 2 * p + 1 && c + 1 < |s| ==> Compare(s[c + 1].key, s[c].key) >= 0
      ensures BetterChild(s, p, c)
    {
      CompareReflexive(s[c].key);
      if c == 2 * p + 1 && c + 1 < |s| {
        CompareFlip(s[c + 1].key, s[c].key);
      }
    }

    /** Dequeue's loop stops at a position without children. */
    lemma SiftDownAtLeaf(s: seq<Entry<K, V>>, p: nat)
      requires OrderedExceptBelow(s, p) && 2 * p + 1 >= |s|
      ensures HeapOrdered(s)
    {
      forall i | 0 < i < |s|
        ensures Parent(i) != p
      {
      }
    }

    /** Dequeue's loop stops: p comes out no later than its better child c,
        hence no later than either child. */
    lemma SiftDownDone(s: seq<Entry<K, V>>, p: nat, c: nat)
      requires IsComparer(comparer) && BetterChild(s, p, c)
      requires Compare(s[p].key, s[c].key) <= 0
      requires OrderedExceptBelow(s, p)
      ensures HeapOrdered(s)
    {
      forall j | 0 < j < |s| && Parent(j) == p
        ensures Compare(s[p].key, s[j].key) <= 0
      {
        CompareTransitive(s[p].key, s[c].key, s[j].key);
      }
    }

    /** One exchange of Dequeue's loop moves the possible violation from p down to c. */
    lemma SiftDownStep(s: seq<Entry<K, V>>, p: nat, c: nat)
      requires IsComparer(comparer) && BetterChild(s, p, c)
      requires Compare(s[p].key, s[c].key) > 0
      requires OrderedExceptBelow(s, p) && GrandparentFirst(s, p)
      ensures OrderedExceptBelow(Swapped(s, p, c), c) && GrandparentFirst(Swapped(s, p, c), c)
    {
      var t := Swapped(s, p, c);
      CompareFlip(s[p].key, s[c].key);
      forall i | 0 < i < |t| && Parent(i) != c
        ensures Compare(t[Parent(i)].key, t[i].key) <= 0
      {
        if i == c {
          assert t[p] == s[c] && t[c] == s[p];
        } else if Parent(i) == p {
          assert t[p] == s[c] && t[i] == s[i];
        } else if i == p {
          assert t[Parent(p)] == s[Parent(p)] && t[p] == s[c];
        } else {
          assert t[Parent(i)] == s[Parent(i)] && t[i] == s[i];
        }
      }
      forall j | 0 < j < |t| && Parent(j) == c
        ensures Compare(t[Parent(c)].key, t[j].key) <= 0
      {
        assert t[Parent(c)] == s[c] && t[j] == s[j];
      }
    }

    /** The value the next Dequeue returns, leaving the queue as it is. */
    method Peek() returns (r: Result<V>)
      requires Valid()
      ensures Count() == 0 ==> r == Failure(EmptyQueue)
      ensures Count() > 0 ==> r == Success(data[0].value)
      ensures Count() > 0 ==> forall x :: x in Contents() ==> Compare(data[0].key, x.key) <= 0
    {
      if |data| == 0 {
        return Failure(EmptyQueue);
      }
      RootBeatsAll(data);
      r := Success(data[0].value);
    }
  }

  /** With the integer comparer, a queue hands out its largest key first
      by default and its smallest first when isDescending is false. */
  lemma IntQueueOrder<V>(q: PriorityQueue<int, V>, a: int, b: int)
    requires q.comparer == CompareInts
    ensures q.isDescending ==> (q.Compare(a, b) <= 0 <==> a >= b)
    ensures !q.isDescending ==> (q.Compare(a, b) <= 0 <==> a <= b)
  {
  }

  /** A min-first integer queue fed 2 and 1 hands out 1, then 2, and then
      reports that it is empty. */
  method AscendingOrder() returns (out: seq<Result<int>>)
    ensures out == [Success(1), Success(2), Failure(EmptyQueue)]
  {
    CompareIntsIsComparer();
    var q := new PriorityQueue<int, int>(x => x, CompareInts, false);
    q.Enqueue(2);
    q.Enqueue(1);
    var a := q.Dequeue();
    assert a == Success(1) && q.Contents() == multiset{Entry(2, 2)};
    var b := q.Dequeue();
    var c := q.Dequeue();
    out := [a, b, c];
  }

  /** taken is ordered by key and no key in rest comes before its keys. */
  ghost predicate DrainedInOrder<V>(taken: seq<Entry<int, V>>, rest: multiset<Entry<int, V>>) {
    && (forall i, j :: 0 <= i < j < |taken| ==> taken[i].key <= taken[j].key)
    && (forall i, x :: 0 <= i < |taken| && x in rest ==> taken[i].key <= x.key)
  }

  /** The draining loop's state: out holds the values of taken, which
      together with rest are the entries of start, in order. */
  ghost predicate DrainState<V>(rest: multiset<Entry<int, V>>, out: seq<V>, taken: seq<Entry<int, V>>, start: multiset<Entry<int, V>>) {
    && multiset(taken) + rest == start
    && |out| == |taken| && (forall i :: 0 <= i < |taken| ==> out[i] == taken[i].value)
    && DrainedInOrder(taken, rest)
  }

  /** Taking out an entry with the smallest key keeps the drained entries
      in order. */
  lemma DrainStep<V>(out: seq<V>, taken: seq<Entry<int, V>>, before: multiset<Entry<int, V>>, v: V, e: Entry<int, V>,
                     start: multiset<Entry<int, V>>)
    requires DrainState(before, out, taken, start) && e in before && v == e.value
    requires forall x :: x in before ==> e.key <= x.key
    ensures DrainState(before - multiset{e}, out + [v], taken + [e], start)
  {
    var t := taken + [e];
    forall i, x | 0 <= i < |t| && x in before - multiset{e}
      ensures t[i].key <= x.key
    {
      assert x in before;
    }
    assert multiset(t) + (before - multiset{e}) == multiset(taken) + before;
  }

  /** Dequeue on a non-empty min-first queue of integer keys: hands out the
      value of an entry e whose key is the smallest stored. */
  method DequeueLeast<V>(q: PriorityQueue<int, V>) returns (v: V, ghost e: Entry<int, V>)
    requires q.Valid() && q.comparer == CompareInts && !q.isDescending && q.Count() > 0
    modifies q
    ensures q.Valid() && e in old(q.Contents()) && q.Contents() == old(q.Contents()) - multiset{e}
    ensures v == e.value && forall x :: x in old(q.Contents()) ==> e.key <= x.key
  {
    ghost var before := q.Contents();
    e := q.data[0];
    var r := q.Dequeue();
    v := r.value;
    forall x | x in before
      ensures e.key <= x.key
    {
      IntQueueOrder(q, e.key, x.key);
    }
  }

  /** Dequeuing everything from a min-first queue of integer keys hands out
      every stored entry once, by non-decreasing key. */
  method DrainAscending<V>(q: PriorityQueue<int, V>) returns (out: seq<V>, ghost taken: seq<Entry<int, V>>)
    requires q.Valid() && q.comparer == CompareInts && !q.isDescending
    modifies q
    ensures q.Valid() && q.Count() == 0
    ensures multiset(taken) == old(q.Contents())
    ensures |out| == |taken| && forall i :: 0 <= i < |taken| ==> out[i] == taken[i].value
    ensures forall i, j :: 0 <= i < j < |taken| ==> taken[i].key <= taken[j].key
  {
    ghost var start := q.Contents();
    out, taken := [], [];
    while q.Count() > 0
      invariant q.Valid() && DrainState(q.Contents(), out, taken, start)
      decreases q.Count()
    {
      ghost var before := q.Contents();
      var v, e := DequeueLeast(q);
      DrainStep(out, taken, before, v, e, start);
      out, taken := out + [v], taken + [e];
    }
  }
}
