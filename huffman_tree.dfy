/** The nodes of a Huffman tree, the codes a tree assigns to its symbols,
    and what those codes guarantee: every symbol gets the bit path from the
    root to its leaf, no code is a prefix of another, a code string decodes
    back to the symbols it was made from, and its length is the sum of
    count times code length. */
module HuffmanTrees {
  import opened Outcomes

  /** A node of the source's tree: a leaf holds a symbol and its count, an
      internal node holds its two children (the source's Children[0] and
      Children[1]) and their total count. */
  datatype Tree<T> = Leaf(symbol: T, weight: nat) | Node(weight: nat, left: Tree<T>, right: Tree<T>)

  /** The symbols below t, each as often as the leaves count it. */
  ghost function Occurrences<T>(t: Tree<T>): multiset<T> {
    match t
    case Leaf(s, w) => multiset{}[s := w]
    case Node(_, l, r) => Occurrences(l) + Occurrences(r)
  }

  /** The symbols that have a leaf in t. */
  ghost function Symbols<T>(t: Tree<T>): set<T> {
    match t
    case Leaf(s, _) => {s}
    case Node(_, l, r) => Symbols(l) + Symbols(r)
  }

  /** No symbol has two leaves: the two children of every node share none. */
  ghost predicate SymbolsOnce<T>(t: Tree<T>) {
    match t
    case Leaf(_, _) => true
    case Node(_, l, r) => SymbolsOnce(l) && SymbolsOnce(r) && Symbols(l) !! Symbols(r)
  }

  /** The shape the encoder builds: leaves count at least one occurrence,
      every internal node's count is the sum of its children's, the lighter
      child comes first, and no symbol is on both sides. */
  ghost predicate WellFormed<T>(t: Tree<T>) {
    match t
    case Leaf(_, w) => w >= 1
    case Node(w, l, r) =>
      && WellFormed(l) && WellFormed(r)
      && w == l.weight + r.weight && l.weight <= r.weight
      && Symbols(l) !! Symbols(r)
  }

  /** A well-formed tree has one leaf per symbol, and its count is the
      number of occurrences below it, each symbol with a leaf occurring. */
  lemma {:induction false} WellFormedFacts<T>(t: Tree<T>)
    requires WellFormed(t)
    ensures SymbolsOnce(t)
    ensures t.weight == |Occurrences(t)|
    ensures forall x :: x in Occurrences(t) <==> x in Symbols(t)
  {
    match t
    case Leaf(s, w) =>
    case Node(w, l, r) =>
      WellFormedFacts(l);
      WellFormedFacts(r);
  }

  /** The merge constructor: a node over n1 and n2 whose first child is the
      lighter one; on a tie n1 stays first. */
  function Merge<T>(n1: Tree<T>, n2: Tree<T>): (r: Tree<T>)
    ensures r.Node? && r.weight == n1.weight + n2.weight
    ensures r.left.weight <= r.right.weight
    ensures (r.left, r.right) == (n1, n2) || (r.left, r.right) == (n2, n1)
    ensures n1.weight <= n2.weight ==> r.left == n1 && r.right == n2
  {
    if n2.weight < n1.weight then Node(n2.weight + n1.weight, n2, n1)
    else Node(n1.weight + n2.weight, n1, n2)
  }

  /** The merged node holds the symbols of both trees, and merging two
      well-formed trees over different symbols gives a well-formed tree. */
  lemma MergeFacts<T>(n1: Tree<T>, n2: Tree<T>)
    ensures Occurrences(Merge(n1, n2)) == Occurrences(n1) + Occurrences(n2)
    ensures Symbols(Merge(n1, n2)) == Symbols(n1) + Symbols(n2)
    ensures WellFormed(n1) && WellFormed(n2) && Symbols(n1) !! Symbols(n2) ==> WellFormed(Merge(n1, n2))
  {
  }

  /** The code of every symbol of t when t's root has code prefix: a
      step to the first child appends '0', one to the second child '1'. */
  ghost function Codes<T>(t: Tree<T>, prefix: string): map<T, string> {
    match t
    case Leaf(s, _) => map[s := prefix]
    case Node(_, l, r) => Codes(l, prefix + "0") + Codes(r, prefix + "1")
  }

  /** Exactly the symbols of t get a code. */
  lemma {:induction false} CodesKeys<T>(t: Tree<T>, prefix: string)
    ensures Codes(t, prefix).Keys == Symbols(t)
  {
    match t
    case Leaf(_, _) =>
    case Node(_, l, r) =>
      CodesKeys(l, prefix + "0");
      CodesKeys(r, prefix + "1");
      assert Codes(t, prefix).Keys == Codes(l, prefix + "0").Keys + Codes(r, prefix + "1").Keys;
  }

  /** At an internal node a symbol takes its code from the child that has it. */
  lemma CodesAtNode<T>(t: Tree<T>, prefix: string, s: T)
    requires t.Node? && SymbolsOnce(t) && s in Symbols(t)
    ensures s in Codes(t, prefix)
    ensures s in Symbols(t.left) ==> s in Codes(t.left, prefix + "0") && Codes(t, prefix)[s] == Codes(t.left, prefix + "0")[s]
    ensures s !in Symbols(t.left) ==> s in Codes(t.right, prefix + "1") && Codes(t, prefix)[s] == Codes(t.right, prefix + "1")[s]
  {
    CodesKeys(t.left, prefix + "0");
    CodesKeys(t.right, prefix + "1");
  }

  /** The path from the root of t down to the leaf of s: '0' for every
      step to a first child, '1' for every step to a second child. */
  ghost function CodeOf<T>(t: Tree<T>, s: T): string
    requires s in Symbols(t)
  {
    match t
    case Leaf(_, _) => ""
    case Node(_, l, r) => if s in Symbols(l) then "0" + CodeOf(l, s) else "1" + CodeOf(r, s)
  }

  /** Below a root with code prefix, a symbol's code is prefix followed by
      the path to its leaf. */
  lemma {:induction false} CodesArePaths<T>(t: Tree<T>, prefix: string, s: T)
    requires SymbolsOnce(t) && s in Symbols(t)
    ensures s in Codes(t, prefix) && Codes(t, prefix)[s] == prefix + CodeOf(t, s)
  {
    match t
    case Leaf(_, _) =>
    case Node(_, l, r) =>
      CodesAtNode(t, prefix, s);
      if s in Symbols(l) {
        CodesArePaths(l, prefix + "0", s);
        calc {
          Codes(t, prefix)[s];
          Codes(l, prefix + "0")[s];
          prefix + "0" + CodeOf(l, s);
          prefix + ("0" + CodeOf(l, s));
          prefix + CodeOf(t, s);
        }
      } else {
        CodesArePaths(r, prefix + "1", s);
        calc {
          Codes(t, prefix)[s];
          Codes(r, prefix + "1")[s];
          prefix + "1" + CodeOf(r, s);
          prefix + ("1" + CodeOf(r, s));
          prefix + CodeOf(t, s);
        }
      }
  }

  /** Every symbol of t gets exactly one code, the path to its leaf. */
  lemma CodeIsPath<T>(t: Tree<T>, s: T)
    requires SymbolsOnce(t) && s in Symbols(t)
    ensures s in Codes(t, "") && Codes(t, "")[s] == CodeOf(t, s)
  {
    CodesArePaths(t, "", s);
    assert "" + CodeOf(t, s) == CodeOf(t, s);
  }

  /** Reads one symbol off bits: from the root, '0' goes to the first child
      and '1' to the second until a leaf is reached; gives the leaf's symbol
      and the unread rest, or None when the bits run out first or hold
      another character. */
  function Walk<T>(t: Tree<T>, bits: string): (r: Option<(T, string)>)
    ensures r.Some? ==> |r.value.1| <= |bits|
    ensures r.Some? && t.Node? ==> |r.value.1| < |bits|
  {
    match t
    case Leaf(s, _) => Some((s, bits))
    case Node(_, l, r) =>
      if bits == [] then None
      else if bits[0] == '0' then Walk(l, bits[1..])
      else if bits[0] == '1' then Walk(r, bits[1..])
      else None
  }

  /** Walking the path to a leaf reaches that leaf and leaves whatever
      follows unread. */
  lemma {:induction false} WalkPath<T>(t: Tree<T>, s: T, rest: string)
    requires s in Symbols(t)
    ensures Walk(t, CodeOf(t, s) + rest) == Some((s, rest))
  {
    match t
    case Leaf(_, _) =>
      assert "" + rest == rest;
    case Node(_, l, r) =>
      var bits := CodeOf(t, s) + rest;
      if s in Symbols(l) {
        WalkPath(l, s, rest);
        assert bits == "0" + (CodeOf(l, s) + rest);
        assert bits[1..] == CodeOf(l, s) + rest;
      } else {
        WalkPath(r, s, rest);
        assert bits == "1" + (CodeOf(r, s) + rest);
        assert bits[1..] == CodeOf(r, s) + rest;
      }
  }

  /** No symbol's code is a prefix of another symbol's code. */
  lemma PrefixFree<T>(t: Tree<T>, s1: T, s2: T)
    requires SymbolsOnce(t) && s1 in Symbols(t) && s2 in Symbols(t) && s1 != s2
    ensures s1 in Codes(t, "") && s2 in Codes(t, "")
    ensures !(Codes(t, "")[s1] <= Codes(t, "")[s2])
  {
    CodeIsPath(t, s1);
    CodeIsPath(t, s2);
    var c1, c2 := CodeOf(t, s1), CodeOf(t, s2);
    WalkPath(t, s2, "");
    assert c2 + "" == c2;
    if c1 <= c2 {
      var rest := c2[|c1|..];
      assert c1 + rest == c2;
      WalkPath(t, s1, rest);
      assert false;
    }
  }

  /** The source's output: the codes of the items, one after the other. */
  ghost function Concat<T>(codes: map<T, string>, data: seq<T>): string
    requires forall x :: x in data ==> x in codes
  {
    if data == [] then "" else codes[data[0]] + Concat(codes, data[1..])
  }

  lemma {:induction false} ConcatSnoc<T>(codes: map<T, string>, data: seq<T>, x: T)
    requires forall y :: y in data ==> y in codes
    requires x in codes
    ensures Concat(codes, data + [x]) == Concat(codes, data) + codes[x]
  {
    if data == [] {
      assert [x][1..] == [];
    } else {
      assert (data + [x])[1..] == data[1..] + [x];
      ConcatSnoc(codes, data[1..], x);
    }
  }

  /** Reads symbols off bits until none is left: the items, or None when
      the bits do not end at a code boundary. Needs an internal root, so
      that every symbol consumes at least one bit. */
  function Decode<T>(t: Tree<T>, bits: string): (r: Option<seq<T>>)
    requires t.Node?
    decreases |bits|
  {
    if bits == [] then Some([])
    else match Walk(t, bits)
      case None => None
      case Some((s, rest)) =>
        match Decode(t, rest)
        case None => None
        case Some(tail) => Some([s] + tail)
  }

  /** Decoding the encoder's output gives back its input. */
  lemma {:induction false} DecodeConcat<T>(t: Tree<T>, data: seq<T>)
    requires t.Node? && SymbolsOnce(t)
    requires forall x :: x in data ==> x in Symbols(t)
    ensures forall x :: x in data ==> x in Codes(t, "")
    ensures Decode(t, Concat(Codes(t, ""), data)) == Some(data)
  {
    CodesKeys(t, "");
    if data != [] {
      var codes := Codes(t, "");
      var bits := Concat(codes, data);
      CodeIsPath(t, data[0]);
      WalkPath(t, data[0], Concat(codes, data[1..]));
      assert Walk(t, bits) == Some((data[0], Concat(codes, data[1..])));
      DecodeConcat(t, data[1..]);
      assert [data[0]] + data[1..] == data;
    }
  }

  /** Sum over the symbols of syms of count times code length. */
  ghost function WeightedLength<T>(syms: seq<T>, counts: multiset<T>, codes: map<T, string>): nat
    requires forall s :: s in syms ==> s in codes
  {
    if syms == [] then 0
    else counts[syms[0]] * |codes[syms[0]]| + WeightedLength(syms[1..], counts, codes)
  }

  /** One more occurrence of a symbol listed once adds its code length. */
  lemma {:induction false} WeightedLengthAdd<T>(syms: seq<T>, counts: multiset<T>, codes: map<T, string>, x: T)
    requires forall s :: s in syms ==> s in codes
    requires multiset(syms)[x] == 1
    ensures WeightedLength(syms, counts + multiset{x}, codes) == WeightedLength(syms, counts, codes) + |codes[x]|
  {
    assert syms == [syms[0]] + syms[1..];
    if syms[0] == x {
      assert x !in syms[1..];
      WeightedLengthUnchanged(syms[1..], counts, codes, x);
    } else {
      WeightedLengthAdd(syms[1..], counts, codes, x);
    }
  }

  /** An occurrence of a symbol not listed changes nothing. */
  lemma {:induction false} WeightedLengthUnchanged<T>(syms: seq<T>, counts: multiset<T>, codes: map<T, string>, x: T)
    requires forall s :: s in syms ==> s in codes
    requires x !in syms
    ensures WeightedLength(syms, counts + multiset{x}, codes) == WeightedLength(syms, counts, codes)
  {
    if syms != [] {
      WeightedLengthUnchanged(syms[1..], counts, codes, x);
    }
  }

  /** The output length is the sum, over the distinct symbols, of how often
      the symbol occurs times the length of its code. */
  lemma {:induction false} ConcatLength<T>(codes: map<T, string>, data: seq<T>, syms: seq<T>)
    requires forall s :: s in syms ==> s in codes
    requires forall x :: x in data ==> multiset(syms)[x] == 1
    ensures forall x :: x in data ==> x in codes
    ensures |Concat(codes, data)| == WeightedLength(syms, multiset(data), codes)
  {
    if data == [] {
      WeightedLengthZero(syms, codes);
    } else {
      assert data == [data[0]] + data[1..];
      assert multiset(data) == multiset(data[1..]) + multiset{data[0]};
      ConcatLength(codes, data[1..], syms);
      WeightedLengthAdd(syms, multiset(data[1..]), codes, data[0]);
    }
  }

  lemma {:induction false} WeightedLengthZero<T>(syms: seq<T>, codes: map<T, string>)
    requires forall s :: s in syms ==> s in codes
    ensures WeightedLength(syms, multiset{}, codes) == 0
  {
    if syms != [] {
      WeightedLengthZero(syms[1..], codes);
    }
  }

  /** A single leaf gives its symbol the empty code, so the output is empty. */
  lemma {:induction false} SingleLeafOutput<T>(t: Tree<T>, data: seq<T>)
    requires t.Leaf? && forall x :: x in data ==> x == t.symbol
    ensures Codes(t, "") == map[t.symbol := ""]
    ensures Concat(Codes(t, ""), data) == ""
  {
    if data != [] {
      assert forall x :: x in data[1..] ==> x in data;
      SingleLeafOutput(t, data[1..]);
      assert data[0] in data;
      assert Codes(t, "")[data[0]] == "";
    }
  }
}
