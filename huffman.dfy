/** The encoder: counts the symbols of the input, builds a Huffman tree by
    repeatedly merging the two lightest trees of a min-first priority queue,
    gives every symbol the path to its leaf as code, and concatenates the
    codes of the input. */
module Huffman {
  import opened Outcomes
  import opened PriorityQueues
  import opened HuffmanTrees

  /** Combines the bags g(x) of the elements x of s. */
  ghost function Gather<X, Y>(s: seq<X>, g: X -> multiset<Y>): multiset<Y> {
    if s == [] then multiset{} else Gather(s[..|s| - 1], g) + g(s[|s| - 1])
  }

  lemma {:induction false} GatherAppend<X, Y>(a: seq<X>, b: seq<X>, g: X -> multiset<Y>)
    ensures Gather(a + b, g) == Gather(a, g) + Gather(b, g)
    decreases |b|
  {
    if b == [] {
      assert a + b == a;
    } else {
      assert (a + b)[..|a + b| - 1] == a + b[..|b| - 1];
      GatherAppend(a, b[..|b| - 1], g);
    }
  }

  /** Taking out the element at i takes out its bag. */
  lemma GatherRemove<X, Y>(s: seq<X>, i: nat, g: X -> multiset<Y>)
    requires i < |s|
    ensures Gather(s, g) == Gather(s[..i] + s[i + 1..], g) + g(s[i])
  {
    assert s == s[..i] + [s[i]] + s[i + 1..];
    GatherAppend(s[..i] + [s[i]], s[i + 1..], g);
    GatherAppend(s[..i], [s[i]], g);
    GatherAppend(s[..i], s[i + 1..], g);
    assert Gather([s[i]], g) == g(s[i]);
  }

  /** Something in the combined bag is in the bag of some element. */
  lemma {:induction false} GatherMember<X, Y>(s: seq<X>, g: X -> multiset<Y>, y: Y) returns (i: nat)
    requires y in Gather(s, g)
    ensures i < |s| && y in g(s[i])
  {
    if y in g(s[|s| - 1]) {
      i := |s| - 1;
    } else {
      i := GatherMember(s[..|s| - 1], g, y);
    }
  }

  /** The key the source stores with a tree in its queue: the tree's count. */
  function WeightOf<T>(t: Tree<T>): int {
    t.weight
  }

  /** For a well-formed tree the key is the number of occurrences below it,
      which is never zero. */
  lemma {:induction false} WeightCountsOccurrences<T>(t: Tree<T>)
    requires WellFormed(t)
    ensures WeightOf(t) == |Occurrences(t)| >= 1
  {
    WellFormedFacts(t);
    match t
    case Leaf(_, _) =>
    case Node(_, l, _) =>
      WeightCountsOccurrences(l);
  }

  ghost function EntryBag<T>(t: Tree<T>): multiset<Entry<int, Tree<T>>> {
    multiset{Entry(WeightOf(t), t)}
  }

  ghost function SymbolBag<T>(t: Tree<T>): multiset<T> {
    multiset(Symbols(t))
  }

  /** No element occurs twice. */
  ghost predicate Distinct<X>(m: multiset<X>) {
    forall x :: x in m ==> m[x] <= 1
  }

  /** forest are the trees in a queue with the given contents: well-formed
      trees over disjoint symbol sets, each stored with its count as key. */
  ghost predicate Forest<T>(forest: seq<Tree<T>>, contents: multiset<Entry<int, Tree<T>>>) {
    && (forall i :: 0 <= i < |forest| ==> WellFormed(forest[i]))
    && contents == Gather(forest, EntryBag)
    && Distinct(Gather(forest, SymbolBag))
  }

  lemma {:induction false} ForestSize<T>(forest: seq<Tree<T>>)
    ensures |Gather(forest, EntryBag)| == |forest|
  {
    if forest != [] {
      ForestSize(forest[..|forest| - 1]);
    }
  }

  /** Dequeuing the entry e takes its tree out of the forest. */
  lemma ForestTake<T>(forest: seq<Tree<T>>, contents: multiset<Entry<int, Tree<T>>>, e: Entry<int, Tree<T>>)
      returns (rest: seq<Tree<T>>)
    requires Forest(forest, contents) && e in contents
    ensures Forest(rest, contents - multiset{e}) && |rest| == |forest| - 1
    ensures e == Entry(WeightOf(e.value), e.value) && e.value in forest && WellFormed(e.value)
    ensures Gather(forest, Occurrences) == Gather(rest, Occurrences) + Occurrences(e.value)
    ensures Gather(forest, SymbolBag) == Gather(rest, SymbolBag) + SymbolBag(e.value)
  {
    var i := GatherMember(forest, EntryBag, e);
    rest := forest[..i] + forest[i + 1..];
    GatherRemove(forest, i, EntryBag);
    GatherRemove(forest, i, Occurrences);
    GatherRemove(forest, i, SymbolBag);
    DistinctPart(Gather(rest, SymbolBag), SymbolBag(e.value));
    WellFormedRemove(forest, i, rest);
  }

  lemma DistinctPart<X>(a: multiset<X>, b: multiset<X>)
    requires Distinct(a + b)
    ensures Distinct(a)
  {
    forall x | x in a
      ensures a[x] <= 1
    {
      assert (a + b)[x] == a[x] + b[x];
    }
  }

  lemma WellFormedRemove<T>(forest: seq<Tree<T>>, i: nat, rest: seq<Tree<T>>)
    requires i < |forest| && rest == forest[..i] + forest[i + 1..]
    requires forall j :: 0 <= j < |forest| ==> WellFormed(forest[j])
    ensures forall j :: 0 <= j < |rest| ==> WellFormed(rest[j])
  {
    forall j | 0 <= j < |rest|
      ensures WellFormed(rest[j])
    {
      assert rest[j] == forest[if j < i then j else j + 1];
    }
  }

  /** Enqueuing a tree over symbols disjoint from the forest's adds it. */
  lemma ForestAdd<T>(forest: seq<Tree<T>>, contents: multiset<Entry<int, Tree<T>>>, t: Tree<T>)
    requires Forest(forest, contents) && WellFormed(t)
    requires Distinct(Gather(forest, SymbolBag) + SymbolBag(t))
    ensures Forest(forest + [t], contents + multiset{Entry(WeightOf(t), t)})
    ensures Gather(forest + [t], Occurrences) == Gather(forest, Occurrences) + Occurrences(t)
    ensures Gather(forest + [t], SymbolBag) == Gather(forest, SymbolBag) + SymbolBag(t)
  {
    assert (forest + [t])[..|forest|] == forest;
  }

  /** Two trees taken out of the forest have no symbol in common, and their
      merge can go back in its place. */
  lemma MergeBack<T>(rest: seq<Tree<T>>, contents: multiset<Entry<int, Tree<T>>>, n1: Tree<T>, n2: Tree<T>, symbols: multiset<T>)
    requires Forest(rest, contents) && WellFormed(n1) && WellFormed(n2)
    requires symbols == Gather(rest, SymbolBag) + SymbolBag(n2) + SymbolBag(n1) && Distinct(symbols)
    ensures WellFormed(Merge(n1, n2)) && Symbols(Merge(n1, n2)) == Symbols(n1) + Symbols(n2)
    ensures Occurrences(Merge(n1, n2)) == Occurrences(n1) + Occurrences(n2)
    ensures Forest(rest + [Merge(n1, n2)], contents + multiset{Entry(WeightOf(Merge(n1, n2)), Merge(n1, n2))})
    ensures Gather(rest + [Merge(n1, n2)], Occurrences) == Gather(rest, Occurrences) + Occurrences(n1) + Occurrences(n2)
    ensures Gather(rest + [Merge(n1, n2)], SymbolBag) == symbols
  {
    DisjointParts(Gather(rest, SymbolBag), Symbols(n2), Symbols(n1));
    MergeFacts(n1, n2);
    var m := Merge(n1, n2);
    UnionBag(Symbols(n1), Symbols(n2));
    assert SymbolBag(m) == SymbolBag(n1) + SymbolBag(n2);
    assert Gather(rest, SymbolBag) + SymbolBag(m) == symbols;
    ForestAdd(rest, contents, m);
  }

  /** Two sets whose elements occur just once in a bag together share nothing. */
  lemma DisjointParts<X>(a: multiset<X>, s2: set<X>, s1: set<X>)
    requires Distinct(a + multiset(s2) + multiset(s1))
    ensures s1 !! s2
  {
    forall x | x in s1
      ensures x !in s2
    {
      assert (a + multiset(s2) + multiset(s1))[x] == a[x] + multiset(s2)[x] + multiset(s1)[x];
    }
  }

  lemma UnionBag<X>(s1: set<X>, s2: set<X>)
    requires s1 !! s2
    ensures multiset(s1 + s2) == multiset(s1) + multiset(s2)
  {
  }

  /** The source's counting loop: how often every symbol occurs in data. */
  method CountSymbols<T(==)>(data: seq<T>) returns (counts: map<T, nat>)
    ensures forall x :: x in counts <==> x in data
    ensures forall x :: x in counts ==> counts[x] == multiset(data)[x]
  {
    counts := map[];
    for i := 0 to |data|
      invariant forall x :: x in counts <==> x in data[..i]
      invariant forall x :: x in counts ==> counts[x] == multiset(data[..i])[x]
    {
      assert data[..i + 1] == data[..i] + [data[i]];
      if data[i] in counts {
        counts := counts[data[i] := counts[data[i]] + 1];
      } else {
        counts := counts[data[i] := 1];
      }
    }
    assert data[..|data|] == data;
  }

  /** forest holds one leaf for every counted symbol not pending any more. */
  ghost predicate Seeded<T>(forest: seq<Tree<T>>, counts: map<T, nat>, pending: set<T>) {
    && (forall x :: x in Gather(forest, Occurrences) ==> x in counts && x !in pending)
    && (forall x :: x in counts && x !in pending ==> Gather(forest, Occurrences)[x] == counts[x])
    && (forall x :: x in Gather(forest, SymbolBag) ==> x in counts && x !in pending)
    && (forall x :: x in counts && x !in pending ==> Gather(forest, SymbolBag)[x] == 1)
  }

  lemma SeedStep<T>(forest: seq<Tree<T>>, counts: map<T, nat>, pending: set<T>, key: T)
    requires Seeded(forest, counts, pending) && key in pending && pending <= counts.Keys
    ensures Distinct(Gather(forest, SymbolBag) + SymbolBag(Leaf(key, counts[key])))
    ensures Seeded(forest + [Leaf(key, counts[key])], counts, pending - {key})
  {
    var leaf := Leaf(key, counts[key]);
    var f := forest + [leaf];
    assert f[..|f| - 1] == forest;
    assert Gather(f, Occurrences) == Gather(forest, Occurrences) + multiset{}[key := counts[key]];
    assert Gather(f, SymbolBag) == Gather(forest, SymbolBag) + multiset{key};
  }

  /** The seeding loop's state: the queue holds forest, one leaf for every
      counted symbol no longer pending. */
  ghost predicate SeedState<T>(forest: seq<Tree<T>>, contents: multiset<Entry<int, Tree<T>>>, counts: map<T, nat>, pending: set<T>) {
    && pending <= counts.Keys
    && Forest(forest, contents)
    && |forest| + |pending| == |counts|
    && (forall i :: 0 <= i < |forest| ==> forest[i].Leaf?)
    && Seeded(forest, counts, pending)
    && contents == LeafBag(counts, counts.Keys - pending)
  }

  lemma SeedNext<T>(forest: seq<Tree<T>>, contents: multiset<Entry<int, Tree<T>>>, counts: map<T, nat>, pending: set<T>, key: T)
    requires SeedState(forest, contents, counts, pending) && key in pending
    requires forall x :: x in counts ==> counts[x] >= 1
    ensures var leaf := Leaf(key, counts[key]);
      SeedState(forest + [leaf], contents + multiset{Entry(WeightOf(leaf), leaf)}, counts, pending - {key})
  {
    var leaf := Leaf(key, counts[key]);
    var f := forest + [leaf];
    assert Seeded(f, counts, pending - {key}) && Distinct(Gather(forest, SymbolBag) + SymbolBag(leaf)) by {
      SeedStep(forest, counts, pending, key);
    }
    assert Forest(f, contents + multiset{Entry(WeightOf(leaf), leaf)}) by {
      ForestAdd(forest, contents, leaf);
    }
    assert |f| + |pending - {key}| == |counts| by {
      assert pending == (pending - {key}) + {key};
    }
    SeedBagStep(counts, pending, key);
    assert forall i :: 0 <= i < |f| ==> f[i].Leaf? by {
      forall i | 0 <= i < |f|
        ensures f[i].Leaf?
      {
        if i < |forest| {
          assert f[i] == forest[i];
        }
      }
    }
  }

  /** One round of the merge loop: the two dequeued trees go out of the
      forest and their merge goes in; no occurrence is lost or gained. */
  lemma MergeNext<T>(forest: seq<Tree<T>>, contents: multiset<Entry<int, Tree<T>>>, e1: Entry<int, Tree<T>>, e2: Entry<int, Tree<T>>)
      returns (next: seq<Tree<T>>)
    requires Forest(forest, contents) && e1 in contents && e2 in contents - multiset{e1}
    ensures e1 == Entry(WeightOf(e1.value), e1.value) && e2 == Entry(WeightOf(e2.value), e2.value)
    ensures var m := Merge(e1.value, e2.value);
      Forest(next, contents - multiset{e1} - multiset{e2} + multiset{Entry(WeightOf(m), m)})
    ensures Gather(next, Occurrences) == Gather(forest, Occurrences) && |next| == |forest| - 1
  {
    var rest1 := ForestTake(forest, contents, e1);
    var rest2 := ForestTake(rest1, contents - multiset{e1}, e2);
    MergeBack(rest2, contents - multiset{e1} - multiset{e2}, e1.value, e2.value, Gather(forest, SymbolBag));
    next := rest2 + [Merge(e1.value, e2.value)];
  }

  /** No entry of c has a smaller key than k. */
  ghost predicate LightestKey<T>(k: int, c: multiset<Entry<int, Tree<T>>>) {
    forall x :: x in c ==> k <= x.key
  }

  /** A choice the merge loop can make on a queue holding c: e1 has the
      smallest key in c and e2 the smallest key of what is left. Which of
      several equally light entries comes out first is left open. */
  ghost predicate GreedyChoice<T>(c: multiset<Entry<int, Tree<T>>>, e1: Entry<int, Tree<T>>, e2: Entry<int, Tree<T>>) {
    && e1 in c && LightestKey(e1.key, c)
    && e2 in c - multiset{e1} && LightestKey(e2.key, c - multiset{e1})
  }

  /** The contents of the queue once e1 and e2 are replaced by their merge. */
  ghost function Merged<T>(c: multiset<Entry<int, Tree<T>>>, e1: Entry<int, Tree<T>>, e2: Entry<int, Tree<T>>): multiset<Entry<int, Tree<T>>> {
    var m := Merge(e1.value, e2.value);
    c - multiset{e1} - multiset{e2} + multiset{Entry(WeightOf(m), m)}
  }

  /** The contents after merging the pairs of steps, in order, from start. */
  ghost function Replay<T>(start: multiset<Entry<int, Tree<T>>>, steps: seq<(Entry<int, Tree<T>>, Entry<int, Tree<T>>)>): multiset<Entry<int, Tree<T>>>
    decreases |steps|
  {
    if steps == [] then start
    else
      var last := steps[|steps| - 1];
      Merged(Replay(start, steps[..|steps| - 1]), last.0, last.1)
  }

  /** Every pair of steps is a choice of the two lightest entries of the
      contents reached so far. */
  ghost predicate Greedy<T>(start: multiset<Entry<int, Tree<T>>>, steps: seq<(Entry<int, Tree<T>>, Entry<int, Tree<T>>)>)
    decreases |steps|
  {
    steps == [] ||
      var last := steps[|steps| - 1];
      Greedy(start, steps[..|steps| - 1]) && GreedyChoice(Replay(start, steps[..|steps| - 1]), last.0, last.1)
  }

  lemma GreedySnoc<T>(start: multiset<Entry<int, Tree<T>>>, steps: seq<(Entry<int, Tree<T>>, Entry<int, Tree<T>>)>,
                      e1: Entry<int, Tree<T>>, e2: Entry<int, Tree<T>>)
    requires Greedy(start, steps) && GreedyChoice(Replay(start, steps), e1, e2)
    ensures Greedy(start, steps + [(e1, e2)])
    ensures Replay(start, steps + [(e1, e2)]) == Merged(Replay(start, steps), e1, e2)
  {
    assert (steps + [(e1, e2)])[..|steps|] == steps;
  }

  /** The entry the seeding loop enqueues for symbol k. */
  ghost function LeafEntry<T>(counts: map<T, nat>, k: T): Entry<int, Tree<T>>
    requires k in counts
  {
    var leaf := Leaf(k, counts[k]);
    Entry(WeightOf(leaf), leaf)
  }

  /** The entries of the leaves of the symbols of keys. */
  ghost function LeafBag<T>(counts: map<T, nat>, keys: set<T>): multiset<Entry<int, Tree<T>>>
    requires keys <= counts.Keys
  {
    multiset(set k | k in keys :: LeafEntry(counts, k))
  }

  /** The seeding loop's step on the bag of leaves enqueued so far. */
  lemma SeedBagStep<T>(counts: map<T, nat>, pending: set<T>, key: T)
    requires pending <= counts.Keys && key in pending
    ensures LeafBag(counts, counts.Keys - (pending - {key})) == LeafBag(counts, counts.Keys - pending) + multiset{LeafEntry(counts, key)}
  {
    assert counts.Keys - (pending - {key}) == (counts.Keys - pending) + {key};
    LeafBagAdd(counts, counts.Keys - pending, key);
  }

  lemma LeafBagAdd<T>(counts: map<T, nat>, keys: set<T>, key: T)
    requires keys <= counts.Keys && key in counts && key !in keys
    ensures LeafBag(counts, keys + {key}) == LeafBag(counts, keys) + multiset{LeafEntry(counts, key)}
  {
    var a := set k | k in keys :: LeafEntry(counts, k);
    var x := LeafEntry(counts, key);
    assert (set k | k in keys + {key} :: LeafEntry(counts, k)) == a + {x};
    assert x !in a;
    UnionBag(a, {x});
  }

  /** The queue the encoder uses: min-first, keyed by a tree's count. */
  ghost predicate CountQueue<T>(queue: PriorityQueue<int, Tree<T>>)
    reads queue
  {
    && queue.Valid()
    && queue.keySelector == WeightOf && queue.comparer == CompareInts && !queue.isDescending
  }

  /** The source's seeding loop: one leaf per counted symbol, in the
      dictionary's order, which is left open here. */
  method SeedQueue<T(==)>(queue: PriorityQueue<int, Tree<T>>, counts: map<T, nat>) returns (ghost forest: seq<Tree<T>>)
    requires CountQueue(queue) && queue.Contents() == multiset{}
    requires forall x :: x in counts ==> counts[x] >= 1
    modifies queue
    ensures CountQueue(queue) && SeedState(forest, queue.Contents(), counts, {})
    ensures queue.Contents() == LeafBag(counts, counts.Keys)
  {
    forest := [];
    var pending := counts.Keys;
    SeedStart(counts);
    while pending != {}
      invariant CountQueue(queue) && SeedState(forest, queue.Contents(), counts, pending)
      decreases |pending|
    {
      var key :| key in pending;
      forest := SeedOne(queue, counts, forest, pending, key);
      pending := pending - {key};
    }
    assert counts.Keys - pending == counts.Keys;
  }

  /** Before the seeding loop, every symbol is pending and the queue is empty. */
  lemma SeedStart<T>(counts: map<T, nat>)
    ensures SeedState([], multiset{}, counts, counts.Keys)
  {
    assert counts.Keys - counts.Keys == {};
    assert LeafBag(counts, {}) == multiset{};
  }

  /** The seeding loop's body: enqueues the leaf of one pending symbol. */
  method SeedOne<T(==)>(queue: PriorityQueue<int, Tree<T>>, counts: map<T, nat>, ghost forest: seq<Tree<T>>, ghost pending: set<T>, key: T)
      returns (ghost forest': seq<Tree<T>>)
    requires CountQueue(queue) && SeedState(forest, queue.Contents(), counts, pending) && key in pending
    requires forall x :: x in counts ==> counts[x] >= 1
    modifies queue
    ensures CountQueue(queue) && SeedState(forest', queue.Contents(), counts, pending - {key})
  {
    var leaf := Leaf(key, counts[key]);
    SeedNext(forest, queue.Contents(), counts, pending, key);
    queue.Enqueue(leaf);
    forest' := forest + [leaf];
  }

  /** One round of the source's merge loop: dequeue the two lightest
      entries e1 and e2, merge their trees (lighter one first) and enqueue
      the merge. */
  method MergeStep<T(==)>(queue: PriorityQueue<int, Tree<T>>, ghost forest: seq<Tree<T>>)
      returns (ghost next: seq<Tree<T>>, ghost e1: Entry<int, Tree<T>>, ghost e2: Entry<int, Tree<T>>)
    requires CountQueue(queue) && Forest(forest, queue.Contents()) && queue.Count() > 1
    modifies queue
    ensures CountQueue(queue) && Forest(next, queue.Contents())
    ensures Gather(next, Occurrences) == Gather(forest, Occurrences) && |next| == |forest| - 1
    ensures queue.Count() == old(queue.Count()) - 1
    ensures GreedyChoice(old(queue.Contents()), e1, e2)
    ensures queue.Contents() == Merged(old(queue.Contents()), e1, e2)
  {
    ghost var c0 := queue.Contents();
    e1 := queue.data[0];
    var first := queue.Dequeue();
    var n1 := first.value;
    ghost var c1 := queue.Contents();
    assert LightestKey(e1.key, c0);
    assert LightestKey(e1.key, c1) by {
      assert c1 <= c0;
    }
    e2 := queue.data[0];
    var second := queue.Dequeue();
    var n2 := second.value;
    assert e2 in c1 && LightestKey(e2.key, c1);
    next := MergeNext(forest, c0, e1, e2);
    assert n1.weight <= n2.weight;
    var merged := Merge(n1, n2);
    queue.Enqueue(merged);
  }

  /** The source's merge loop: while more than one tree is queued, merges
      the two lightest. */
  method MergeAll<T(==)>(queue: PriorityQueue<int, Tree<T>>, ghost forest: seq<Tree<T>>)
      returns (ghost result: seq<Tree<T>>, ghost steps: seq<(Entry<int, Tree<T>>, Entry<int, Tree<T>>)>)
    requires CountQueue(queue) && Forest(forest, queue.Contents())
    modifies queue
    ensures CountQueue(queue) && Forest(result, queue.Contents())
    ensures Gather(result, Occurrences) == Gather(forest, Occurrences)
    ensures |result| == if |forest| == 0 then 0 else 1
    ensures |forest| <= 1 ==> result == forest
    ensures Greedy(old(queue.Contents()), steps) && queue.Contents() == Replay(old(queue.Contents()), steps)
  {
    ghost var start := queue.Contents();
    result := forest;
    steps := [];
    ForestSize(result);
    while queue.Count() > 1
      invariant CountQueue(queue) && MergeState(queue.Contents(), forest, result, start, steps)
      decreases queue.Count()
    {
      result, steps := MergeRound(queue, forest, result, start, steps);
    }
    ForestSize(result);
  }

  /** The merge loop's state: the queue holds result, which has the
      occurrences of forest, and was reached from start by greedy steps. */
  ghost predicate MergeState<T>(contents: multiset<Entry<int, Tree<T>>>, forest: seq<Tree<T>>, result: seq<Tree<T>>,
                                start: multiset<Entry<int, Tree<T>>>, steps: seq<(Entry<int, Tree<T>>, Entry<int, Tree<T>>)>) {
    && Forest(result, contents)
    && (1 <= |result| <= |forest| || |forest| == 0 == |result|)
    && Gather(result, Occurrences) == Gather(forest, Occurrences)
    && (|forest| <= 1 ==> result == forest)
    && Greedy(start, steps) && contents == Replay(start, steps)
  }

  /** The merge loop's body, with its state recorded. */
  method MergeRound<T(==)>(queue: PriorityQueue<int, Tree<T>>, ghost forest: seq<Tree<T>>, ghost result: seq<Tree<T>>,
                           ghost start: multiset<Entry<int, Tree<T>>>, ghost steps: seq<(Entry<int, Tree<T>>, Entry<int, Tree<T>>)>)
      returns (ghost result': seq<Tree<T>>, ghost steps': seq<(Entry<int, Tree<T>>, Entry<int, Tree<T>>)>)
    requires CountQueue(queue) && MergeState(queue.Contents(), forest, result, start, steps) && queue.Count() > 1
    modifies queue
    ensures CountQueue(queue) && MergeState(queue.Contents(), forest, result', start, steps')
    ensures queue.Count() < old(queue.Count())
  {
    ForestSize(result);
    ghost var e1, e2;
    result', e1, e2 := MergeStep(queue, result);
    GreedySnoc(start, steps, e1, e2);
    steps' := steps + [(e1, e2)];
  }

  /** t is what the merge loop can leave in a queue seeded with the leaves
      of counts, choosing the two lightest entries in every round. */
  ghost predicate GreedyTree<T(!new)>(t: Tree<T>, counts: map<T, nat>) {
    exists steps :: Greedy(LeafBag(counts, counts.Keys), steps)
      && Replay(LeafBag(counts, counts.Keys), steps) == multiset{Entry(WeightOf(t), t)}
  }

  /** A bag that removing x leaves empty held only x. */
  lemma SingleEntry<X>(c: multiset<X>, x: X)
    requires x in c && c - multiset{x} == multiset{}
    ensures c == multiset{x}
  {
    assert c == (c - multiset{x}) + multiset{x};
  }

  /** The source's queue phase: seeds a min-first queue keyed by count
      with one leaf per counted symbol, merges until one tree is left and
      dequeues it as the root. With nothing counted that final dequeue
      fails. */
  method BuildTree<T(==, !new)>(counts: map<T, nat>) returns (r: Result<Tree<T>>)
    requires forall x :: x in counts ==> counts[x] >= 1
    ensures r.Failure? <==> |counts| == 0
    ensures r.Failure? ==> r.error == EmptyQueue
    ensures r.Success? ==> WellFormed(r.value)
    ensures r.Success? ==> forall x :: Occurrences(r.value)[x] == if x in counts then counts[x] else 0
    ensures r.Success? && |counts| == 1 ==> r.value.Leaf?
    ensures r.Success? ==> GreedyTree(r.value, counts)
  {
    CompareIntsIsComparer();
    var queue := new PriorityQueue<int, Tree<T>>(WeightOf, CompareInts, false);
    ghost var seeded := SeedQueue(queue, counts);
    ghost var forest, steps := MergeAll(queue, seeded);
    ForestSize(forest);
    ghost var c := queue.Contents();
    ghost var before := queue.data;
    var root := queue.Dequeue();
    if root.Failure? {
      return Failure(root.error);
    }
    ghost var rest := ForestTake(forest, c, before[0]);
    assert Occurrences(root.value) == Gather(forest, Occurrences) by {
      assert rest == [];
    }
    assert GreedyTree(root.value, counts) by {
      assert Count0: queue.Contents() == multiset{} by {
        assert |queue.Contents()| == 0;
      }
      SingleEntry(c, before[0]);
      assert Greedy(LeafBag(counts, counts.Keys), steps)
        && Replay(LeafBag(counts, counts.Keys), steps) == multiset{Entry(WeightOf(root.value), root.value)};
    }
    SeededOccurrences(seeded, counts);
    r := root;
  }

  /** Once nothing is pending, the seeded leaves hold exactly the counts. */
  lemma SeededOccurrences<T>(seeded: seq<Tree<T>>, counts: map<T, nat>)
    requires Seeded(seeded, counts, {})
    ensures forall x :: Gather(seeded, Occurrences)[x] == if x in counts then counts[x] else 0
  {
    forall x
      ensures Gather(seeded, Occurrences)[x] == if x in counts then counts[x] else 0
    {
      if x !in counts {
        assert x !in Gather(seeded, Occurrences);
      }
    }
  }

  /** The number of nodes of t. */
  ghost function Size<T>(t: Tree<T>): nat {
    match t
    case Leaf(_, _) => 1
    case Node(_, l, r) => 1 + Size(l) + Size(r)
  }

  /** The nodes still to visit on the code-assignment stack. */
  ghost function StackSize<T>(stack: seq<(Tree<T>, string)>): nat {
    if stack == [] then 0 else StackSize(stack[..|stack| - 1]) + Size(stack[|stack| - 1].0)
  }

  /** The symbols below the stacked nodes. */
  ghost function StackSymbols<T>(stack: seq<(Tree<T>, string)>): set<T> {
    if stack == [] then {} else StackSymbols(stack[..|stack| - 1]) + Symbols(stack[|stack| - 1].0)
  }

  /** No symbol is below two stacked nodes. */
  ghost predicate StackDisjoint<T>(stack: seq<(Tree<T>, string)>) {
    stack != [] ==>
      StackDisjoint(stack[..|stack| - 1]) && Symbols(stack[|stack| - 1].0) !! StackSymbols(stack[..|stack| - 1])
  }

  /** t is a subtree of root reached along code: every symbol below t has
      as code in root the code of t followed by its path in t. */
  ghost predicate OnPath<T>(root: Tree<T>, t: Tree<T>, code: string) {
    && SymbolsOnce(t)
    && forall s :: s in Symbols(t) ==> s in Symbols(root) && code + CodeOf(t, s) == CodeOf(root, s)
  }

  /** The state of the code-assignment loop: every symbol of root is either
      in codeMap, with its path as code, or below exactly one stacked node,
      which carries its path from root. */
  ghost predicate WalkState<T>(root: Tree<T>, stack: seq<(Tree<T>, string)>, codeMap: map<T, string>) {
    && codeMap.Keys !! StackSymbols(stack) && StackDisjoint(stack)
    && codeMap.Keys + StackSymbols(stack) == Symbols(root)
    && (forall s :: s in codeMap ==> s in Symbols(root) && codeMap[s] == CodeOf(root, s))
    && (forall i :: 0 <= i < |stack| ==> OnPath(root, stack[i].0, stack[i].1))
  }

  lemma WalkStart<T>(root: Tree<T>)
    requires SymbolsOnce(root)
    ensures WalkState(root, [(root, "")], map[])
  {
    var stack := [(root, "")];
    assert stack[..0] == [];
    forall s | s in Symbols(root)
      ensures "" + CodeOf(root, s) == CodeOf(root, s)
    {
    }
  }

  /** Dropping the top of the stack keeps the rest of the invariant. */
  lemma StackDropLast<T>(root: Tree<T>, stack: seq<(Tree<T>, string)>)
    requires |stack| > 0 && StackDisjoint(stack)
    requires forall i :: 0 <= i < |stack| ==> OnPath(root, stack[i].0, stack[i].1)
    ensures var rest := stack[..|stack| - 1];
      && StackSymbols(stack) == StackSymbols(rest) + Symbols(stack[|stack| - 1].0)
      && StackDisjoint(rest) && Symbols(stack[|stack| - 1].0) !! StackSymbols(rest)
      && (forall i :: 0 <= i < |rest| ==> OnPath(root, rest[i].0, rest[i].1))
      && OnPath(root, stack[|stack| - 1].0, stack[|stack| - 1].1)
  {
    var rest := stack[..|stack| - 1];
    forall i | 0 <= i < |rest|
      ensures OnPath(root, rest[i].0, rest[i].1)
    {
      assert rest[i] == stack[i];
    }
  }

  /** Moving symbol s from the pending part to the coded part keeps the
      partition of all symbols. */
  lemma MoveToCoded<T>(coded: set<T>, rest: set<T>, s: T, all: set<T>)
    requires coded !! rest + {s} && rest !! {s} && coded + (rest + {s}) == all
    ensures s !in coded && coded + {s} !! rest && coded + {s} + rest == all
  {
  }

  /** Adding the path of s as its code keeps every code a path. */
  lemma AddPathCode<T>(root: Tree<T>, codeMap: map<T, string>, s: T, code: string)
    requires forall x :: x in codeMap ==> x in Symbols(root) && codeMap[x] == CodeOf(root, x)
    requires s in Symbols(root) && code == CodeOf(root, s)
    ensures forall x :: x in codeMap[s := code] ==> x in Symbols(root) && codeMap[s := code][x] == CodeOf(root, x)
  {
  }

  /** Popping a leaf: its symbol is not in codeMap yet (so the source's
      Dictionary.Add does not throw), and its code is its path. */
  lemma PopLeaf<T>(root: Tree<T>, stack: seq<(Tree<T>, string)>, codeMap: map<T, string>)
    requires |stack| > 0 && stack[|stack| - 1].0.Leaf?
    requires WalkState(root, stack, codeMap)
    ensures stack[|stack| - 1].0.symbol !in codeMap
    ensures WalkState(root, stack[..|stack| - 1], codeMap[stack[|stack| - 1].0.symbol := stack[|stack| - 1].1])
  {
    var (leaf, code) := stack[|stack| - 1];
    var s := leaf.symbol;
    var rest := stack[..|stack| - 1];
    var next := codeMap[s := code];
    StackDropLast(root, stack);
    assert Symbols(leaf) == {s};
    MoveToCoded(codeMap.Keys, StackSymbols(rest), s, Symbols(root));
    assert next.Keys == codeMap.Keys + {s};
    assert code + CodeOf(leaf, s) == code;
    AddPathCode(root, codeMap, s, code);
  }

  /** Popping an internal node and pushing its children, first child with
      '0' appended to the code, second child with '1'. */
  lemma PopNode<T>(root: Tree<T>, stack: seq<(Tree<T>, string)>, codeMap: map<T, string>)
    requires |stack| > 0 && stack[|stack| - 1].0.Node?
    requires WalkState(root, stack, codeMap)
    ensures var (node, code) := stack[|stack| - 1];
      var next := stack[..|stack| - 1] + [(node.left, code + "0"), (node.right, code + "1")];
      WalkState(root, next, codeMap)
  {
    var (node, code) := stack[|stack| - 1];
    var rest := stack[..|stack| - 1];
    var next := rest + [(node.left, code + "0"), (node.right, code + "1")];
    assert next[..|next| - 1] == rest + [(node.left, code + "0")];
    assert (rest + [(node.left, code + "0")])[..|rest|] == rest;
    assert StackSymbols(next) == StackSymbols(rest) + Symbols(node.left) + Symbols(node.right);
    assert OnPath(root, node, code);
    ChildrenOnPath(root, node, code);
    forall i | 0 <= i < |next|
      ensures OnPath(root, next[i].0, next[i].1)
    {
      if i < |rest| {
        assert next[i] == stack[i];
      }
    }
  }

  /** Popping a leaf shortens the walk. */
  lemma LeafPopShrinks<T>(stack: seq<(Tree<T>, string)>)
    requires |stack| > 0
    ensures StackSize(stack[..|stack| - 1]) < StackSize(stack)
  {
  }

  /** Replacing an internal node by its two children shortens the walk. */
  lemma NodePopShrinks<T>(stack: seq<(Tree<T>, string)>, code0: string, code1: string)
    requires |stack| > 0 && stack[|stack| - 1].0.Node?
    ensures var node := stack[|stack| - 1].0;
      StackSize(stack[..|stack| - 1] + [(node.left, code0), (node.right, code1)]) < StackSize(stack)
  {
    var node := stack[|stack| - 1].0;
    var rest := stack[..|stack| - 1];
    var next := rest + [(node.left, code0), (node.right, code1)];
    assert next[..|next| - 1] == rest + [(node.left, code0)];
    assert (rest + [(node.left, code0)])[..|rest|] == rest;
    assert StackSize(next) == StackSize(rest) + Size(node.left) + Size(node.right);
  }

  lemma ChildrenOnPath<T>(root: Tree<T>, node: Tree<T>, code: string)
    requires node.Node? && OnPath(root, node, code)
    ensures OnPath(root, node.left, code + "0") && OnPath(root, node.right, code + "1")
  {
    LeftOnPath(root, node, code);
    RightOnPath(root, node, code);
  }

  lemma LeftOnPath<T>(root: Tree<T>, node: Tree<T>, code: string)
    requires node.Node? && OnPath(root, node, code)
    ensures OnPath(root, node.left, code + "0")
  {
    forall s | s in Symbols(node.left)
      ensures s in Symbols(root) && code + "0" + CodeOf(node.left, s) == CodeOf(root, s)
    {
      assert CodeOf(node, s) == "0" + CodeOf(node.left, s);
      assert code + "0" + CodeOf(node.left, s) == code + CodeOf(node, s);
    }
  }

  lemma RightOnPath<T>(root: Tree<T>, node: Tree<T>, code: string)
    requires node.Node? && OnPath(root, node, code)
    ensures OnPath(root, node.right, code + "1")
  {
    forall s | s in Symbols(node.right)
      ensures s in Symbols(root) && code + "1" + CodeOf(node.right, s) == CodeOf(root, s)
    {
      assert s !in Symbols(node.left);
      assert CodeOf(node, s) == "1" + CodeOf(node.right, s);
      assert code + "1" + CodeOf(node.right, s) == code + CodeOf(node, s);
    }
  }

  lemma WalkDone<T>(root: Tree<T>, codeMap: map<T, string>)
    requires SymbolsOnce(root) && WalkState(root, [], codeMap)
    ensures codeMap == Codes(root, "")
  {
    CodesKeys(root, "");
    var empty: seq<(Tree<T>, string)> := [];
    assert StackSymbols(empty) == {};
    assert codeMap.Keys == Symbols(root);
    assert codeMap.Keys == Codes(root, "").Keys;
    forall s | s in codeMap
      ensures codeMap[s] == Codes(root, "")[s]
    {
      CodeIsPath(root, s);
    }
  }

  /** The source's stack loop: pops a node; a leaf's code goes into the
      code map, an internal node passes its code plus '0' to its first child
      and plus '1' to its second and pushes both. The result gives every
      symbol the path to its leaf. */
  method AssignCodes<T(==)>(root: Tree<T>) returns (codeMap: map<T, string>)
    requires SymbolsOnce(root)
    ensures codeMap == Codes(root, "")
  {
    var stack := [(root, "")];
    codeMap := map[];
    WalkStart(root);
    while |stack| > 0
      invariant WalkState(root, stack, codeMap)
      decreases StackSize(stack)
    {
      var (current, code) := stack[|stack| - 1];
      if current.Leaf? {
        PopLeaf(root, stack, codeMap);
        LeafPopShrinks(stack);
        codeMap := codeMap[current.symbol := code];
        stack := stack[..|stack| - 1];
      } else {
        PopNode(root, stack, codeMap);
        NodePopShrinks(stack, code + "0", code + "1");
        stack := stack[..|stack| - 1] + [(current.left, code + "0"), (current.right, code + "1")];
      }
    }
    WalkDone(root, codeMap);
  }

  /** The source's output loop: the codes of the items, in order. */
  method Concatenate<T(==)>(codeMap: map<T, string>, data: seq<T>) returns (ans: string)
    requires forall x :: x in data ==> x in codeMap
    ensures ans == Concat(codeMap, data)
  {
    ans := "";
    for i := 0 to |data|
      invariant ans == Concat(codeMap, data[..i])
    {
      assert data[..i + 1] == data[..i] + [data[i]];
      ConcatSnoc(codeMap, data[..i], data[i]);
      ans := ans + codeMap[data[i]];
    }
    assert data[..|data|] == data;
  }

  /** t is a tree the encoder can build for data: well formed, with one
      leaf per distinct item counting its occurrences. */
  ghost predicate CodeTree<T>(t: Tree<T>, data: seq<T>) {
    WellFormed(t) && Occurrences(t) == multiset(data)
  }

  /** How often every item of data occurs in it. */
  ghost function Counted<T>(data: seq<T>): map<T, nat> {
    map x | x in data :: multiset(data)[x]
  }

  lemma CountsAreCounted<T>(counts: map<T, nat>, data: seq<T>)
    requires forall x :: x in counts <==> x in data
    requires forall x :: x in counts ==> counts[x] == multiset(data)[x]
    ensures counts == Counted(data)
  {
  }

  /** Counts that agree with data give back data's multiset. */
  lemma CountsAreData<T>(occ: multiset<T>, counts: map<T, nat>, data: seq<T>)
    requires forall x :: occ[x] == if x in counts then counts[x] else 0
    requires forall x :: x in counts <==> x in data
    requires forall x :: x in counts ==> counts[x] == multiset(data)[x]
    ensures occ == multiset(data)
  {
    forall x
      ensures occ[x] == multiset(data)[x]
    {
      if x !in data {
        assert x !in multiset(data);
      }
    }
  }

  /** Huffman-encodes data: the concatenated codes of its items under a
      tree built from their counts. Empty input fails, because the source's
      final dequeue then finds the queue empty; a single distinct item gets
      the empty code, so its output is empty. */
  method Encode<T(==, !new)>(data: seq<T>) returns (r: Result<string>)
    ensures r.Failure? <==> data == []
    ensures r.Failure? ==> r.error == EmptyQueue
    ensures r.Success? ==> exists t :: && CodeTree(t, data) && GreedyTree(t, Counted(data))
                                       && (forall x :: x in data ==> x in Codes(t, "")) && r.value == Concat(Codes(t, ""), data)
    ensures |set x | x in data| == 1 ==> r == Success("")
  {
    var counts := CountSymbols(data);
    assert counts.Keys == set x | x in data;
    CountsAreCounted(counts, data);
    var built := BuildTree(counts);
    assert data != [] ==> data[0] in counts;
    if built.Failure? {
      return Failure(built.error);
    }
    var root := built.value;
    WellFormedFacts(root);
    CountsAreData(Occurrences(root), counts, data);
    var codeMap := AssignCodes(root);
    CodesKeys(root, "");
    var ans := Concatenate(codeMap, data);
    r := Success(ans);
    assert CodeTree(root, data) && GreedyTree(root, Counted(data));
    if |counts| == 1 {
      SingleLeafOutput(root, data);
    }
  }

  /** The root of a tree built for data weighs as many as data has items. */
  lemma RootWeight<T>(t: Tree<T>, data: seq<T>)
    requires CodeTree(t, data)
    ensures t.weight == |data|
  {
    WellFormedFacts(t);
  }

  /** A tree built for data with two different items has a root with two
      children, so every item gets a non-empty code. */
  lemma TwoItemsGiveNode<T>(t: Tree<T>, data: seq<T>, i: nat, j: nat)
    requires CodeTree(t, data) && i < |data| && j < |data| && data[i] != data[j]
    ensures t.Node?
    ensures forall x :: x in data ==> x in Codes(t, "") && |Codes(t, "")[x]| > 0
  {
    assert data[i] in multiset(data) && data[j] in multiset(data);
    WellFormedFacts(t);
    forall x | x in data
      ensures x in Codes(t, "") && |Codes(t, "")[x]| > 0
    {
      assert x in multiset(data);
      CodeIsPath(t, x);
    }
  }

  /** Decoding the encoder's output with the tree it was built with gives
      the input back. */
  lemma EncodingRoundTrip<T>(t: Tree<T>, data: seq<T>)
    requires CodeTree(t, data) && t.Node?
    ensures forall x :: x in data ==> x in Codes(t, "")
    ensures Decode(t, Concat(Codes(t, ""), data)) == Some(data)
  {
    WellFormedFacts(t);
    forall x | x in data
      ensures x in Symbols(t)
    {
      assert x in multiset(data);
    }
    DecodeConcat(t, data);
  }

  /** No item's code is a prefix of another item's code. */
  lemma EncodingPrefixFree<T>(t: Tree<T>, data: seq<T>, i: nat, j: nat)
    requires CodeTree(t, data) && i < |data| && j < |data| && data[i] != data[j]
    ensures data[i] in Codes(t, "") && data[j] in Codes(t, "")
    ensures !(Codes(t, "")[data[i]] <= Codes(t, "")[data[j]])
  {
    WellFormedFacts(t);
    assert data[i] in multiset(data) && data[j] in multiset(data);
    PrefixFree(t, data[i], data[j]);
  }
}
