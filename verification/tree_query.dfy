/**
 Read-only queries of trees.c: tree_search, tree_find_min,
 tree_get_successor / tree_successor and tree_ub. A returned node is a path
 from the root; `None` is the C code's sentinel result (return code -1).
 */
module RbQuery {
  import opened Options
  import opened Sequences
  import opened RbTree

  lemma StepNode<V>(t: Tree<V>, d: Dir, p: Path)
    requires t.Node? && IsNode(Child(t, d), p)
    ensures IsNode(t, [d] + p) && Subtree(t, [d] + p) == Subtree(Child(t, d), p)
  {
    assert ([d] + p)[0] == d && ([d] + p)[1..] == p;
  }

  // ---------------------------------------------------------------------------
  // tree_do_search / tree_search

  /**
   tree_do_search: the first node in pre-order (root, left subtree, right
   subtree) whose key is within Epsilon of `key`. The scan ignores the
   ordering of the tree.
   */
  function DoSearch<V>(t: Tree<V>, key: real): (r: Option<Path>)
    ensures r.Some? ==> IsNode(t, r.value) && FloatEqual(key, Subtree(t, r.value).key)
  {
    if t.Nil? then None
    else if FloatEqual(key, t.key) then Some([])
    else
      match DoSearch(t.left, key)
      case Some(p) => StepNode(t, L, p); Some([L] + p)
      case None =>
        match DoSearch(t.right, key)
        case Some(p) => StepNode(t, R, p); Some([R] + p)
        case None => None
  }

  /** Some key of the tree is within Epsilon of `key`. */
  predicate HasNear<V>(t: Tree<V>, key: real) {
    exists k :: k in Keys(t) && FloatEqual(key, k)
  }

  /**
   tree_search: finds a node whose key is within Epsilon of `key` exactly
   when the tree holds such a key; on failure the caller's node is not set.
   */
  function Search<V>(t: Tree<V>, key: real): (r: Option<Path>)
    ensures r.Some? ==> IsNode(t, r.value) && FloatEqual(key, Subtree(t, r.value).key)
    ensures r.Some? <==> HasNear(t, key)
  {
    SearchComplete(t, key);
    DoSearch(t, key)
  }

  lemma {:induction false} SearchComplete<V>(t: Tree<V>, key: real)
    ensures DoSearch(t, key).Some? <==> HasNear(t, key)
  {
    if t.Node? {
      KeysNode(t);
      SearchComplete(t.left, key);
      SearchComplete(t.right, key);
      if DoSearch(t, key).Some? {
        var p := DoSearch(t, key).value;
        EntryAtRank(t, p);
        assert Entries(t)[Rank(t, p)].0 in Keys(t);
      }
    }
  }

  /** The search reads only keys and links, so trees with the same keys in the same places give the same answer. */
  lemma SearchSameKeys<V>(a: Tree<V>, b: Tree<V>, key: real)
    requires SameKeys(a, b)
    ensures Search(a, key) == Search(b, key)
  {
    DoSearchSameKeys(a, b, key);
  }

  lemma {:induction false} DoSearchSameKeys<V>(a: Tree<V>, b: Tree<V>, key: real)
    requires SameKeys(a, b)
    ensures DoSearch(a, key) == DoSearch(b, key)
  {
    if a.Node? {
      DoSearchSameKeys(a.left, b.left, key);
      DoSearchSameKeys(a.right, b.right, key);
    }
  }

  // ---------------------------------------------------------------------------
  // tree_find_min

  /** Path from a node down its left spine to the leftmost node. */
  function LeftSpine<V>(s: Tree<V>): (p: Path)
    requires s.Node?
    ensures IsNode(s, p) && Subtree(s, p).left.Nil?
    ensures Before(s, p) == [] && Rank(s, p) == 0
  {
    if s.left.Nil? then []
    else
      var q := LeftSpine(s.left);
      StepNode(s, L, q);
      assert ([L] + q)[0] == L && ([L] + q)[1..] == q;
      [L] + q
  }

  /** tree_find_min on the subtree at p: the sentinel for an empty subtree, else its leftmost node. */
  function FindMin<V>(t: Tree<V>, p: Path): (r: Option<Path>)
    requires IsPosition(t, p)
    ensures r.None? <==> Subtree(t, p).Nil?
    ensures r.Some? ==> IsNode(t, r.value)
    ensures r.Some? ==> Rank(t, r.value) == |Before(t, p)|
  {
    var s := Subtree(t, p);
    if s.Nil? then None
    else
      var q := LeftSpine(s);
      SubtreeAppend(t, p, q);
      RankAppend(t, p, q);
      Some(p + q)
  }

  // ---------------------------------------------------------------------------
  // tree_get_successor / tree_successor

  /** The climb of tree_get_successor: go up while the current node is a right child. */
  function ClimbRight(p: Path): (q: Path)
    ensures |q| <= |p| && q == p[..|q|]
    ensures q == [] || Last(q) == L
    ensures forall i :: |q| <= i < |p| ==> p[i] == R
  {
    if p != [] && Last(p) == R then ClimbRight(Up(p))
    else
      assert p != [] ==> Last(p).L?;
      p
  }

  /** tree_get_successor for the node at p: the sentinel (None) when there is none. */
  function NextNode<V>(t: Tree<V>, p: Path): (r: Option<Path>)
    requires IsNode(t, p)
    ensures r.Some? ==> IsNode(t, r.value) && Rank(t, r.value) == Rank(t, p) + 1
    ensures r.None? <==> Rank(t, p) == |Entries(t)| - 1
  {
    var x := Subtree(t, p);
    if x.right.Node? then
      ChildPosition(t, p, R);
      var m := FindMin(t, p + [R]);
      BeforeAppend(t, p, [R]);
      EntryAtRank(t, m.value);
      m
    else
      var q := ClimbRight(p);
      ClimbFacts(t, p, q);
      if q == [] then None
      else
        EntryAtRank(t, Up(q));
        Some(Up(q))
  }

  /** A node with a right child has its successor at the bottom of the right subtree's left spine. */
  lemma SuccessorInRight<V>(t: Tree<V>, p: Path)
    requires IsNode(t, p) && Subtree(t, p).right.Node?
    ensures NextNode(t, p) == Some(p + [R] + LeftSpine(Subtree(t, p).right))
    ensures Subtree(t, NextNode(t, p).value).left.Nil?
  {
    ChildPosition(t, p, R);
    SubtreeAppend(t, p + [R], LeftSpine(Subtree(t, p).right));
  }

  /** All steps of the path go right. */
  predicate AllRight(p: Path) {
    forall i :: 0 <= i < |p| ==> p[i] == R
  }

  /** A node reached by right steps only and without right child is the last in in-order. */
  lemma {:induction false} RightmostRank<V>(s: Tree<V>, q: Path)
    requires IsNode(s, q) && AllRight(q) && Subtree(s, q).right.Nil?
    ensures Rank(s, q) == |Entries(s)| - 1
    decreases |q|
  {
    if q != [] {
      RightmostRank(s.right, q[1..]);
    }
  }

  lemma ClimbFacts<V>(t: Tree<V>, p: Path, q: Path)
    requires IsNode(t, p) && Subtree(t, p).right.Nil? && q == ClimbRight(p)
    ensures q == [] ==> Rank(t, p) == |Entries(t)| - 1
    ensures q != [] ==> IsNode(t, Up(q)) && Rank(t, Up(q)) == Rank(t, p) + 1
  {
    var k := p[|q|..];
    assert p == q + k;
    assert AllRight(k);
    if q == [] {
      RightmostRank(t, p);
    } else {
      var y := Up(q);
      assert q == y + [L];
      assert p == y + ([L] + k);
      ClimbStep(t, y, k);
    }
  }

  /** The node reached from y by one left step and then right steps only, with no right child, precedes y. */
  lemma ClimbStep<V>(t: Tree<V>, y: Path, k: Path)
    requires IsNode(t, y + ([L] + k)) && AllRight(k) && Subtree(t, y + ([L] + k)).right.Nil?
    ensures IsNode(t, y) && Rank(t, y) == Rank(t, y + ([L] + k)) + 1
  {
    var p := y + ([L] + k);
    RankAppend(t, y, [L] + k);
    SubtreeAppend(t, y, [L] + k);
    var ys := Subtree(t, y);
    assert ys.Node?;
    assert ([L] + k)[0] == L && ([L] + k)[1..] == k;
    assert IsNode(ys.left, k);
    assert Before(ys, [L] + k) == Before(ys.left, k);
    assert Rank(ys, [L] + k) == Rank(ys.left, k);
    RightmostRank(ys.left, k);
  }

  /** tree_successor: move to the next node in key order; None (-1) when p holds the maximum. */
  function Successor<V>(t: Tree<V>, p: Path): (r: Option<Path>)
    requires IsNode(t, p)
    ensures r.Some? ==> IsNode(t, r.value) && Rank(t, r.value) == Rank(t, p) + 1
    ensures r.None? <==> Rank(t, p) == |Entries(t)| - 1
  {
    NextNode(t, p)
  }

  /**
   In an ordered tree tree_successor moves to the node holding the next larger
   key, and fails exactly when the node holds the largest key.
   */
  lemma SuccessorNextKey<V>(t: Tree<V>, p: Path)
    requires Ordered(t) && IsNode(t, p)
    ensures Successor(t, p).None? <==> forall k :: k in Keys(t) ==> k <= Subtree(t, p).key
    ensures Successor(t, p).Some? ==>
      var k2 := Subtree(t, Successor(t, p).value).key;
      Subtree(t, p).key < k2 && forall k :: k in Keys(t) && Subtree(t, p).key < k ==> k2 <= k
  {
    SuccessorLast(t, p);
    if Successor(t, p).Some? {
      SuccessorNext(t, p);
    }
  }

  lemma SuccessorLast<V>(t: Tree<V>, p: Path)
    requires Ordered(t) && IsNode(t, p)
    ensures Successor(t, p).None? <==> forall k :: k in Keys(t) ==> k <= Subtree(t, p).key
  {
    var es, i, key := Entries(t), Rank(t, p), Subtree(t, p).key;
    EntryAtRank(t, p);
    assert es[i].0 == key;
    NextInOrder(es, i);
    assert Keys(t) == KeysOf(es);
    assert (forall k :: k in KeysOf(es) ==> k <= key) <==> i == |es| - 1;
    assert Successor(t, p).None? <==> i == |es| - 1;
  }

  lemma SuccessorNext<V>(t: Tree<V>, p: Path)
    requires Ordered(t) && IsNode(t, p) && Successor(t, p).Some?
    ensures var k2 := Subtree(t, Successor(t, p).value).key;
      Subtree(t, p).key < k2 && forall k :: k in Keys(t) && Subtree(t, p).key < k ==> k2 <= k
  {
    var es, i, key := Entries(t), Rank(t, p), Subtree(t, p).key;
    var q := Successor(t, p).value;
    assert Rank(t, q) == i + 1;
    EntryAtRank(t, p);
    EntryAtRank(t, q);
    assert es[i].0 == key && es[i + 1].0 == Subtree(t, q).key;
    NextInOrder(es, i);
    assert Keys(t) == KeysOf(es);
  }

  /** In a strictly increasing sequence the entry after index i holds the next larger key. */
  lemma NextInOrder<V>(es: seq<(real, V)>, i: nat)
    requires StrictlyIncreasing(es) && i < |es|
    ensures (forall k :: k in KeysOf(es) ==> k <= es[i].0) <==> i == |es| - 1
    ensures i < |es| - 1 ==> es[i].0 < es[i + 1].0 && forall k :: k in KeysOf(es) && es[i].0 < k ==> es[i + 1].0 <= k
  {
    forall k | k in KeysOf(es) && es[i].0 < k ensures i < |es| - 1 && es[i + 1].0 <= k {
      var j := KeysOfIndex(es, k);
      assert i < j;
    }
    if i == |es| - 1 {
      forall k | k in KeysOf(es) ensures k <= es[i].0 {
        var j := KeysOfIndex(es, k);
        assert j <= i;
      }
    } else {
      assert es[i + 1].0 in KeysOf(es);
    }
  }

  // ---------------------------------------------------------------------------
  // tree_do_ub / tree_ub

  /**
   tree_do_ub: walk down from the root; a key within Epsilon of the target is
   returned at once, a larger key is kept as the fallback of its left subtree.
   */
  function DoUb<V>(t: Tree<V>, key: real): (r: Option<Path>)
    ensures r.Some? ==> IsNode(t, r.value)
  {
    if t.Nil? then None
    else if FloatEqual(t.key, key) then Some([])
    else if key < t.key then
      match DoUb(t.left, key)
      case Some(p) => StepNode(t, L, p); Some([L] + p)
      case None => Some([])
    else
      match DoUb(t.right, key)
      case Some(p) => StepNode(t, R, p); Some([R] + p)
      case None => None
  }

  /**
   tree_ub: in an ordered tree, fails exactly when every key lies below the
   target by at least Epsilon; otherwise the key found is within Epsilon of
   the target or, when no key is, the smallest key above the target. The
   `assert(node->key >= key)` of the C code is not implied: see UbMayBeBelowTarget.
   */
  function Ub<V>(t: Tree<V>, key: real): (r: Option<Path>)
    ensures r.Some? ==> IsNode(t, r.value)
    ensures Ordered(t) ==> (r.None? <==> forall k :: k in Keys(t) ==> k < key && !FloatEqual(k, key))
    ensures Ordered(t) && r.Some? && HasNear(t, key) ==> FloatEqual(Subtree(t, r.value).key, key)
    ensures Ordered(t) && r.Some? && !HasNear(t, key) ==>
      key < Subtree(t, r.value).key && forall k :: k in Keys(t) && key < k ==> Subtree(t, r.value).key <= k
  {
    if Ordered(t) then UbCorrect(t, key); DoUb(t, key) else DoUb(t, key)
  }

  lemma {:induction false} UbCorrect<V>(t: Tree<V>, key: real)
    requires Ordered(t)
    ensures DoUb(t, key).None? <==> forall k :: k in Keys(t) ==> k < key && !FloatEqual(k, key)
    ensures DoUb(t, key).Some? && HasNear(t, key) ==> FloatEqual(Subtree(t, DoUb(t, key).value).key, key)
    ensures DoUb(t, key).Some? && !HasNear(t, key) ==>
      var u := Subtree(t, DoUb(t, key).value).key;
      key < u && forall k :: k in Keys(t) && key < k ==> u <= k
  {
    if t.Node? {
      OrderedNode(t);
      UbCorrect(t.left, key);
      UbCorrect(t.right, key);
      if FloatEqual(t.key, key) {
        KeysNode(t);
        assert t.key in Keys(t);
      } else if key < t.key {
        UbGoLeft(t, key);
      } else {
        UbGoRight(t, key);
      }
    }
  }

  /** The three promises of tree_ub, for one subtree. */
  predicate UbSpec<V>(t: Tree<V>, key: real) {
    (DoUb(t, key).None? <==> forall k :: k in Keys(t) ==> k < key && !FloatEqual(k, key)) &&
    (DoUb(t, key).Some? && HasNear(t, key) ==> FloatEqual(Subtree(t, DoUb(t, key).value).key, key)) &&
    (DoUb(t, key).Some? && !HasNear(t, key) ==>
      var u := Subtree(t, DoUb(t, key).value).key;
      key < u && forall k :: k in Keys(t) && key < k ==> u <= k)
  }

  /** A target more than Epsilon below the node's key: the answer is on the left or the node itself. */
  lemma UbGoLeft<V>(t: Tree<V>, key: real)
    requires t.Node? && Ordered(t) && !FloatEqual(t.key, key) && key < t.key && UbSpec(t.left, key)
    ensures UbSpec(t, key)
  {
    KeysNode(t);
    OrderedNode(t);
    // keys on the right exceed t.key, which is already Epsilon above the target
    assert forall k :: k in Keys(t.right) ==> !FloatEqual(key, k);
    assert t.key in Keys(t);
    assert HasNear(t, key) ==> HasNear(t.left, key);
    match DoUb(t.left, key)
    case Some(p) =>
      StepNode(t, L, p);
      assert DoUb(t, key) == Some([L] + p);
      NodeKeyIn(t.left, p);
    case None =>
      assert DoUb(t, key) == Some([]);
      assert !HasNear(t, key);
  }

  /** The key at a node of the tree is one of its keys. */
  lemma NodeKeyIn<V>(t: Tree<V>, p: Path)
    requires IsNode(t, p)
    ensures Subtree(t, p).key in Keys(t)
  {
    EntryAtRank(t, p);
    assert Entries(t)[Rank(t, p)].0 in Keys(t);
  }

  /** A target more than Epsilon above the node's key: the answer is on the right or there is none. */
  lemma UbGoRight<V>(t: Tree<V>, key: real)
    requires t.Node? && Ordered(t) && !FloatEqual(t.key, key) && t.key < key && UbSpec(t.right, key)
    ensures UbSpec(t, key)
  {
    KeysNode(t);
    OrderedNode(t);
    assert forall k :: k in Keys(t.left) ==> !FloatEqual(key, k);
    assert HasNear(t, key) ==> HasNear(t.right, key);
    match DoUb(t.right, key)
    case Some(p) =>
      StepNode(t, R, p);
      assert DoUb(t, key) == Some([R] + p);
      NodeKeyIn(t.right, p);
    case None =>
      assert DoUb(t, key).None?;
  }

  /** The C code's `assert(node->key >= key)` can fail: tree_ub may return a key just below the target. */
  lemma UbMayBeBelowTarget()
    ensures var t := Node(Black, Nil, 1.0, 0, Nil);
      Ub(t, 1.0005) == Some([]) && Subtree(t, []).key < 1.0005
  {
  }
}
