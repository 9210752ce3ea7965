/**
 * BDDBuilder.build_robdd as the source runs it: a bottom-up rewrite that
 * consults and fills the builder's node_cache. Nodes live in an arena (the
 * sequence `heap`, standing for Python's object heap) and refer to their
 * children by index; a node's value as a diagram is its unfolding. The cache
 * maps a terminal's value, or a decision node's variable and child indices, to
 * the one canonical node for it. Python compares and hashes nodes
 * structurally; because every cached node denotes a different diagram
 * (UnfoldInjective), comparing indices decides the same thing.
 */
module UniqueTable {
  import opened Wrappers
  import opened Diagram
  import opened Reduction

  /** An arena record: a terminal, or a decision node whose children are arena indices. */
  datatype Node = Leaf(value: int) | Inner(variable: string, low: nat, high: nat)

  /** A node_cache key: a terminal's value, or a decision node's variable and children. */
  datatype Key = ValueKey(value: int) | NodeKey(variable: string, low: nat, high: nat)

  function KeyOf(n: Node): Key
  {
    match n
    case Leaf(v) => ValueKey(v)
    case Inner(x, l, h) => NodeKey(x, l, h)
  }

  /** Children are allocated before their parents, so the arena is acyclic. */
  predicate WellFormed(heap: seq<Node>)
  {
    forall i | 0 <= i < |heap| :: heap[i].Inner? ==> heap[i].low < i && heap[i].high < i
  }

  /** The diagram that arena node i stands for. */
  function Unfold(heap: seq<Node>, i: nat): BDD
    requires WellFormed(heap) && i < |heap|
    decreases i
  {
    match heap[i]
    case Leaf(v) => Terminal(v)
    case Inner(x, l, h) => Decision(x, Unfold(heap, l), Unfold(heap, h))
  }

  /**
   * The invariant of the nodes created since the cache was last reset (indices
   * from base on): the cache maps every key to the node with that key and
   * every such node is cached under its own key, so no two of them are equal
   * and there is at most one terminal per value; every decision node among
   * them has two different children that are themselves cached.
   */
  ghost predicate Canon(heap: seq<Node>, base: nat, cache: map<Key, nat>)
  {
    base <= |heap| && WellFormed(heap) &&
    (forall k | k in cache :: base <= cache[k] < |heap| && KeyOf(heap[cache[k]]) == k) &&
    (forall i | base <= i < |heap| :: KeyOf(heap[i]) in cache && cache[KeyOf(heap[i])] == i) &&
    (forall i | base <= i < |heap| && heap[i].Inner? ::
       base <= heap[i].low && base <= heap[i].high && heap[i].low != heap[i].high)
  }

  /** The diagrams that the nodes at indices base .. n-1 stand for. */
  ghost function DenotedUpTo(heap: seq<Node>, base: nat, n: nat): set<BDD>
    requires WellFormed(heap) && base <= n <= |heap|
    decreases n
  {
    if n == base then {} else DenotedUpTo(heap, base, n - 1) + {Unfold(heap, n - 1)}
  }

  /** The diagrams the cached nodes stand for. */
  ghost function Denoted(heap: seq<Node>, base: nat): set<BDD>
    requires WellFormed(heap) && base <= |heap|
  {
    DenotedUpTo(heap, base, |heap|)
  }

  /** A diagram is denoted exactly when some node from base on stands for it. */
  lemma {:induction false} DenotedUpToMembers(heap: seq<Node>, base: nat, n: nat, d: BDD)
    requires WellFormed(heap) && base <= n <= |heap|
    ensures d in DenotedUpTo(heap, base, n) <==> exists i | base <= i < n :: Unfold(heap, i) == d
    decreases n
  {
    if n > base {
      DenotedUpToMembers(heap, base, n - 1, d);
      assert DenotedUpTo(heap, base, n) == DenotedUpTo(heap, base, n - 1) + {Unfold(heap, n - 1)};
      if d in DenotedUpTo(heap, base, n) && Unfold(heap, n - 1) != d {
        var i :| base <= i < n - 1 && Unfold(heap, i) == d;
        assert base <= i < n;
      }
      if i :| base <= i < n && Unfold(heap, i) == d {
        if i < n - 1 {
          assert exists j | base <= j < n - 1 :: Unfold(heap, j) == d by {
            assert base <= i < n - 1 && Unfold(heap, i) == d;
          }
          assert d in DenotedUpTo(heap, base, n - 1);
        }
      }
    }
  }

  /** Growing the arena does not change what existing nodes stand for. */
  lemma {:induction false} UnfoldPrefix(h1: seq<Node>, h2: seq<Node>, i: nat)
    requires WellFormed(h1) && WellFormed(h2) && h1 <= h2 && i < |h1|
    ensures Unfold(h1, i) == Unfold(h2, i)
    decreases i
  {
    assert h1[i] == h2[i];
    match h1[i]
    case Leaf(_) =>
    case Inner(x, l, h) =>
      UnfoldPrefix(h1, h2, l);
      UnfoldPrefix(h1, h2, h);
  }

  /**
   * Two cached nodes that stand for structurally equal diagrams are the same
   * node: BDDNode's structural == and identity coincide on the cached nodes.
   */
  lemma {:induction false} UnfoldInjective(heap: seq<Node>, base: nat, cache: map<Key, nat>, i: nat, j: nat)
    requires Canon(heap, base, cache)
    requires base <= i < |heap| && base <= j < |heap|
    ensures Unfold(heap, i) == Unfold(heap, j) <==> i == j
    decreases i + j
  {
    if Unfold(heap, i) == Unfold(heap, j) {
      match heap[i]
      case Leaf(v) =>
        assert KeyOf(heap[i]) == KeyOf(heap[j]);
      case Inner(x, l, h) =>
        var n := heap[j];
        UnfoldInjective(heap, base, cache, l, n.low);
        UnfoldInjective(heap, base, cache, h, n.high);
        assert KeyOf(heap[i]) == KeyOf(heap[j]);
    }
  }

  /**
   * Looking up a decision key finds a cached node exactly when some cached node
   * is structurally equal to the decision node over the two children, which
   * is what the source's dictionary lookup tests.
   */
  lemma CacheHitIsStructural(heap: seq<Node>, base: nat, cache: map<Key, nat>, x: string, lo: nat, hi: nat)
    requires Canon(heap, base, cache)
    requires base <= lo < |heap| && base <= hi < |heap|
    ensures NodeKey(x, lo, hi) in cache <==>
            exists j | base <= j < |heap| :: Unfold(heap, j) == Decision(x, Unfold(heap, lo), Unfold(heap, hi))
  {
    var goal := Decision(x, Unfold(heap, lo), Unfold(heap, hi));
    if NodeKey(x, lo, hi) in cache {
      var j := cache[NodeKey(x, lo, hi)];
      assert Unfold(heap, j) == goal;
      assert exists j | base <= j < |heap| :: Unfold(heap, j) == goal;
    }
    if j :| base <= j < |heap| && Unfold(heap, j) == goal {
      var n := heap[j];
      UnfoldInjective(heap, base, cache, n.low, lo);
      UnfoldInjective(heap, base, cache, n.high, hi);
      assert KeyOf(heap[j]) == NodeKey(x, lo, hi);
    }
  }

  /** Appending one node adds exactly its diagram to the denoted ones and changes no other node's. */
  lemma DenotedStep(h1: seq<Node>, h2: seq<Node>, base: nat)
    requires WellFormed(h2) && |h2| == |h1| + 1 && h1 == h2[..|h1|] && base <= |h1|
    ensures WellFormed(h1)
    ensures forall i | 0 <= i < |h1| :: Unfold(h1, i) == Unfold(h2, i)
    ensures Denoted(h2, base) == Denoted(h1, base) + {Unfold(h2, |h1|)}
  {
    assert WellFormed(h1) by {
      forall i | 0 <= i < |h1| && h1[i].Inner? ensures h1[i].low < i && h1[i].high < i {
        assert h1[i] == h2[i];
      }
    }
    forall i | 0 <= i < |h1| ensures Unfold(h1, i) == Unfold(h2, i) {
      UnfoldPrefix(h1, h2, i);
    }
    DenotedUpToPrefix(h1, h2, base, |h1|);
  }

  /** Nodes of a prefix denote the same diagrams in the longer arena. */
  lemma {:induction false} DenotedUpToPrefix(h1: seq<Node>, h2: seq<Node>, base: nat, n: nat)
    requires WellFormed(h1) && WellFormed(h2) && h1 <= h2 && base <= n <= |h1|
    ensures DenotedUpTo(h1, base, n) == DenotedUpTo(h2, base, n)
    decreases n
  {
    if n > base {
      DenotedUpToPrefix(h1, h2, base, n - 1);
      UnfoldPrefix(h1, h2, n - 1);
    }
  }

  /** Appending a node whose key is not cached, and caching it, keeps the invariant. */
  lemma AppendCanon(heap: seq<Node>, base: nat, cache: map<Key, nat>, n: Node)
    requires Canon(heap, base, cache) && KeyOf(n) !in cache
    requires n.Inner? ==> base <= n.low < |heap| && base <= n.high < |heap| && n.low != n.high
    ensures Canon(heap + [n], base, cache[KeyOf(n) := |heap|])
    ensures forall i | 0 <= i < |heap| :: Unfold(heap + [n], i) == Unfold(heap, i)
    ensures Denoted(heap + [n], base) == Denoted(heap, base) + {Unfold(heap + [n], |heap|)}
  {
    var heap' := heap + [n];
    assert WellFormed(heap') by {
      forall i | 0 <= i < |heap'| && heap'[i].Inner? ensures heap'[i].low < i && heap'[i].high < i {
        if i < |heap| { assert heap'[i] == heap[i]; }
      }
    }
    assert heap'[..|heap|] == heap;
    DenotedStep(heap, heap', base);
  }

  lemma PrefixWellFormed(heap: seq<Node>, n: nat)
    requires WellFormed(heap) && n <= |heap|
    ensures WellFormed(heap[..n])
  {
    var pre := heap[..n];
    forall i | 0 <= i < |pre| && pre[i].Inner? ensures pre[i].low < i && pre[i].high < i {
      assert pre[i] == heap[i];
    }
  }

  /** The diagram of a cached node is not among those of the cached nodes before it. */
  lemma NewestIsFresh(heap: seq<Node>, base: nat, cache: map<Key, nat>, n: nat)
    requires Canon(heap, base, cache) && base < n <= |heap|
    ensures WellFormed(heap[..n - 1])
    ensures Unfold(heap, n - 1) !in Denoted(heap[..n - 1], base)
  {
    var prev := heap[..n - 1];
    PrefixWellFormed(heap, n - 1);
    var d := Unfold(heap, n - 1);
    DenotedUpToMembers(prev, base, n - 1, d);
    if d in Denoted(prev, base) {
      var i :| base <= i < n - 1 && Unfold(prev, i) == d;
      UnfoldPrefix(prev, heap, i);
      UnfoldInjective(heap, base, cache, i, n - 1);
    }
  }

  /** Since no two cached nodes stand for the same diagram, there are as many of them as diagrams. */
  lemma {:induction false} RegionSize(heap: seq<Node>, base: nat, cache: map<Key, nat>, n: nat)
    requires Canon(heap, base, cache) && base <= n <= |heap|
    ensures WellFormed(heap[..n]) && |Denoted(heap[..n], base)| == n - base
    decreases n
  {
    var pre := heap[..n];
    PrefixWellFormed(heap, n);
    if n == base {
      assert Denoted(pre, base) == {};
    } else {
      var prev := heap[..n - 1];
      assert prev == pre[..n - 1];
      RegionSize(heap, base, cache, n - 1);
      DenotedStep(prev, pre, base);
      UnfoldPrefix(pre, heap, n - 1);
      NewestIsFresh(heap, base, cache, n);
    }
  }

  /** BDDBuilder: the node arena and node_cache, the unique table of the current build. */
  class Builder {
    var heap: seq<Node>
    var cache: map<Key, nat>
    /** Where the nodes of the current cache's lifetime start in the arena. */
    ghost var base: nat

    ghost predicate Valid()
      reads this
    {
      Canon(heap, base, cache)
    }

    /** A builder starts with an empty node_cache. */
    constructor ()
      ensures Valid() && heap == [] && cache == map[]
    {
      heap, cache, base := [], map[], 0;
    }

    /** `node_cache = {}`: nodes already built stay where they are, the cache starts over. */
    method ResetCache()
      requires Valid()
      modifies this
      ensures Valid() && heap == old(heap) && cache == map[] && base == |heap|
    {
      cache := map[];
      base := |heap|;
    }

    /** A terminal: its value's cached node, after caching this terminal if the value is new. */
    method CacheTerminal(v: int) returns (id: nat)
      requires Valid()
      modifies this
      ensures Valid() && base == old(base) && old(heap) <= heap
      ensures forall k | k in old(cache) :: k in cache && cache[k] == old(cache)[k]
      ensures base <= id < |heap| && Unfold(heap, id) == Terminal(v)
      ensures Denoted(heap, base) == Denoted(old(heap), base) + Subtrees(Terminal(v))
    {
      var k := ValueKey(v);
      if k !in cache {
        AppendCanon(heap, base, cache, Leaf(v));
        heap, cache := heap + [Leaf(v)], cache[k := |heap|];
      }
      id := cache[k];
      assert heap[id] == Leaf(v);
      DenotedUpToMembers(heap, base, |heap|, Terminal(v));
    }

    /**
     * A decision node over reduced children: the low child when both children
     * are the same node, else the cached node with the same variable and
     * children, else this node, newly cached.
     */
    method MakeNode(x: string, lo: nat, hi: nat) returns (id: nat)
      requires Valid() && base <= lo < |heap| && base <= hi < |heap|
      modifies this
      ensures Valid() && base == old(base) && old(heap) <= heap
      ensures forall k | k in old(cache) :: k in cache && cache[k] == old(cache)[k]
      ensures base <= id < |heap|
      ensures Unfold(heap, id) ==
                var l, h := Unfold(old(heap), lo), Unfold(old(heap), hi);
                if l == h then l else Decision(x, l, h)
      ensures Subtrees(Unfold(heap, id)) ==
                {Unfold(heap, id)} + Subtrees(Unfold(old(heap), lo)) + Subtrees(Unfold(old(heap), hi))
      ensures Denoted(heap, base) == Denoted(old(heap), base) + {Unfold(heap, id)}
    {
      if lo == hi {
        id := lo;
        DenotedUpToMembers(heap, base, |heap|, Unfold(heap, id));
        assert Unfold(heap, id) in Subtrees(Unfold(heap, id));
        return;
      }
      UnfoldInjective(heap, base, cache, lo, hi);
      var k := NodeKey(x, lo, hi);
      if k in cache {
        id := cache[k];
        assert heap[id] == Inner(x, lo, hi);
        DenotedUpToMembers(heap, base, |heap|, Unfold(heap, id));
      } else {
        AppendCanon(heap, base, cache, Inner(x, lo, hi));
        heap, cache := heap + [Inner(x, lo, hi)], cache[k := |heap|];
        id := |heap| - 1;
      }
    }

    /**
     * build_robdd on a present root: reduces t bottom-up, low child first,
     * and returns the canonical node for ReduceTree(t). The cache only gains
     * keys and never rebinds one, and the cached nodes come to stand for
     * the subdiagrams of the result besides those they stood for before.
     */
    method Reduce(t: BDD) returns (id: nat)
      requires Valid()
      modifies this
      ensures Valid() && base == old(base) && old(heap) <= heap
      ensures forall k | k in old(cache) :: k in cache && cache[k] == old(cache)[k]
      ensures base <= id < |heap| && Unfold(heap, id) == ReduceTree(t)
      ensures Denoted(heap, base) == Denoted(old(heap), base) + Subtrees(Unfold(heap, id))
      decreases t, 2
    {
      if t.Terminal? {
        id := CacheTerminal(t.value);
      } else {
        id := ReduceDecision(t.variable, t.low, t.high);
      }
    }

    /** The decision-node case of build_robdd: both children first, then MakeNode. */
    method ReduceDecision(x: string, l: BDD, h: BDD) returns (id: nat)
      requires Valid()
      modifies this
      ensures Valid() && base == old(base) && old(heap) <= heap
      ensures forall k | k in old(cache) :: k in cache && cache[k] == old(cache)[k]
      ensures base <= id < |heap| && Unfold(heap, id) == ReduceTree(Decision(x, l, h))
      ensures Denoted(heap, base) == Denoted(old(heap), base) + Subtrees(Unfold(heap, id))
      decreases Decision(x, l, h), 1
    {
      var lo, hi := ReduceChildren(x, l, h);
      id := MakeNode(x, lo, hi);
    }

    /**
     * The children of a decision node on x, reduced in the source's order:
     * low, then high. The cached diagrams gain the subdiagrams of both.
     */
    method ReduceChildren(x: string, l: BDD, h: BDD) returns (lo: nat, hi: nat)
      requires Valid()
      modifies this
      ensures Valid() && base == old(base) && old(heap) <= heap
      ensures forall k | k in old(cache) :: k in cache && cache[k] == old(cache)[k]
      ensures base <= lo < |heap| && Unfold(heap, lo) == ReduceTree(l)
      ensures base <= hi < |heap| && Unfold(heap, hi) == ReduceTree(h)
      ensures Denoted(heap, base) == Denoted(old(heap), base) + Subtrees(ReduceTree(l)) + Subtrees(ReduceTree(h))
      decreases Decision(x, l, h), 0
    {
      lo := Reduce(l);
      ghost var mid := heap;
      hi := Reduce(h);
      UnfoldPrefix(mid, heap, lo);
    }

    /**
     * build_robdd: None gives None and changes nothing; a present root gives
     * the canonical node of its reduced diagram. Run on a fresh cache, the
     * nodes it caches are one per distinct subdiagram of the result.
     */
    method BuildRobdd(root: Option<BDD>) returns (r: Option<nat>)
      requires Valid()
      modifies this
      ensures Valid() && base == old(base) && old(heap) <= heap
      ensures forall k | k in old(cache) :: k in cache && cache[k] == old(cache)[k]
      ensures root.None? ==> r.None? && heap == old(heap) && cache == old(cache)
      ensures root.Some? ==> r.Some? && base <= r.value < |heap| && Unfold(heap, r.value) == ReduceTree(root.value)
      ensures root.Some? && old(cache) == map[] ==>
                Denoted(heap, base) == Subtrees(ReduceTree(root.value)) &&
                |heap| - base == |Subtrees(ReduceTree(root.value))|
    {
      if root.None? {
        return None;
      }
      ghost var empty := cache == map[];
      if empty {
        assert Denoted(heap, base) == {};
      }
      var id := Reduce(root.value);
      RegionSize(heap, base, cache, |heap|);
      assert heap[..|heap|] == heap;
      r := Some(id);
    }
  }
}
