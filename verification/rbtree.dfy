/**
 The red-black tree of trees.c as an immutable datatype.

 The C code links nodes with parent/left/right pointers and uses one shared
 BLACK sentinel for every missing link. Here `Nil` plays the sentinel, a node
 is addressed by its `Path` from the root, and every pointer update of the C
 code (rotation, recolouring, splicing) becomes `Replace` of the subtree at a
 path. A path may also end at a `Nil` slot: that is the C code's `x == nil`
 with `x->parent` still meaningful (delete fix-up).
 */
module RbTree {
  import opened Sequences

  /** Absolute tolerance of float_equal. */
  const Epsilon: real := 0.001

  /** float_equal: |a - b| < 0.001. */
  predicate FloatEqual(a: real, b: real) {
    -Epsilon < a - b < Epsilon
  }

  datatype Color = Red | Black

  datatype Tree<V> = Nil | Node(color: Color, left: Tree<V>, key: real, value: V, right: Tree<V>)

  datatype Dir = L | R

  type Path = seq<Dir>

  function Other(d: Dir): Dir {
    if d == L then R else L
  }

  /** The colour the C code reads; the sentinel is BLACK. */
  function ColorOf<V>(t: Tree<V>): Color {
    if t.Nil? then Black else t.color
  }

  function Child<V>(t: Tree<V>, d: Dir): Tree<V>
    requires t.Node?
  {
    if d == L then t.left else t.right
  }

  function WithChild<V>(t: Tree<V>, d: Dir, c: Tree<V>): Tree<V>
    requires t.Node?
  {
    if d == L then t.(left := c) else t.(right := c)
  }

  /** The subtree a path leads to (Nil once the path leaves the tree). */
  function Subtree<V>(t: Tree<V>, p: Path): Tree<V>
    decreases |p|
  {
    if p == [] then t
    else if t.Nil? then Nil
    else Subtree(Child(t, p[0]), p[1..])
  }

  /** Every step of the path goes through a node: the path names a node or a sentinel slot. */
  predicate IsPosition<V>(t: Tree<V>, p: Path)
    decreases |p|
  {
    p == [] || (t.Node? && IsPosition(Child(t, p[0]), p[1..]))
  }

  /** The path names a node. */
  predicate IsNode<V>(t: Tree<V>, p: Path) {
    IsPosition(t, p) && Subtree(t, p).Node?
  }

  /** The tree with the subtree at position p replaced by s. */
  function Replace<V>(t: Tree<V>, p: Path, s: Tree<V>): Tree<V>
    decreases |p|
  {
    if p == [] then s
    else if t.Nil? then t
    else WithChild(t, p[0], Replace(Child(t, p[0]), p[1..], s))
  }

  /** The path of the parent (the C code's x->parent). */
  function Up(p: Path): Path
    requires p != []
  {
    p[..|p| - 1]
  }

  function Last(p: Path): Dir
    requires p != []
  {
    p[|p| - 1]
  }

  // ---------------------------------------------------------------------------
  // In-order view

  /** The key/value pairs in in-order sequence. */
  function Entries<V>(t: Tree<V>): seq<(real, V)> {
    if t.Nil? then [] else Entries(t.left) + [(t.key, t.value)] + Entries(t.right)
  }

  function Keys<V>(t: Tree<V>): set<real> {
    KeysOf(Entries(t))
  }

  /** Binary-search-tree order: in-order keys strictly increase. */
  predicate Ordered<V>(t: Tree<V>) {
    StrictlyIncreasing(Entries(t))
  }

  /** In-order entries that precede the subtree at p. */
  function Before<V>(t: Tree<V>, p: Path): seq<(real, V)>
    decreases |p|
  {
    if p == [] || t.Nil? then []
    else if p[0] == L then Before(t.left, p[1..])
    else Entries(t.left) + [(t.key, t.value)] + Before(t.right, p[1..])
  }

  /** In-order entries that follow the subtree at p. */
  function After<V>(t: Tree<V>, p: Path): seq<(real, V)>
    decreases |p|
  {
    if p == [] || t.Nil? then []
    else if p[0] == L then After(t.left, p[1..]) + [(t.key, t.value)] + Entries(t.right)
    else After(t.right, p[1..])
  }

  /** In-order index of the node at p. */
  function Rank<V>(t: Tree<V>, p: Path): nat
    requires IsNode(t, p)
  {
    |Before(t, p)| + |Entries(Subtree(t, p).left)|
  }

  /**
   The in-order sequence splits around any position, and replacing the subtree
   there replaces exactly the middle part.
   */
  lemma {:induction false} SplitAt<V>(t: Tree<V>, p: Path, s: Tree<V>)
    requires IsPosition(t, p)
    ensures Entries(t) == Before(t, p) + Entries(Subtree(t, p)) + After(t, p)
    ensures Entries(Replace(t, p, s)) == Before(t, p) + Entries(s) + After(t, p)
    decreases |p|
  {
    SplitOriginal(t, p);
    SplitReplaced(t, p, s);
  }

  lemma {:induction false} SplitOriginal<V>(t: Tree<V>, p: Path)
    requires IsPosition(t, p)
    ensures Entries(t) == Before(t, p) + Entries(Subtree(t, p)) + After(t, p)
    decreases |p|
  {
    if p != [] {
      var c := Child(t, p[0]);
      SplitOriginal(c, p[1..]);
      var b, m, a := Before(c, p[1..]), Entries(Subtree(c, p[1..])), After(c, p[1..]);
      var n := [(t.key, t.value)];
      if p[0] == L {
        calc {
          Entries(t);
          (b + m + a) + n + Entries(t.right);
          b + m + (a + n + Entries(t.right));
        }
      } else {
        calc {
          Entries(t);
          Entries(t.left) + n + (b + m + a);
          (Entries(t.left) + n + b) + m + a;
        }
      }
    }
  }

  lemma {:induction false} SplitReplaced<V>(t: Tree<V>, p: Path, s: Tree<V>)
    requires IsPosition(t, p)
    ensures Entries(Replace(t, p, s)) == Before(t, p) + Entries(s) + After(t, p)
    decreases |p|
  {
    if p != [] {
      var c := Child(t, p[0]);
      SplitReplaced(c, p[1..], s);
      var b, m, a := Before(c, p[1..]), Entries(s), After(c, p[1..]);
      var n := [(t.key, t.value)];
      if p[0] == L {
        calc {
          Entries(Replace(t, p, s));
          (b + m + a) + n + Entries(t.right);
          b + m + (a + n + Entries(t.right));
        }
      } else {
        calc {
          Entries(Replace(t, p, s));
          Entries(t.left) + n + (b + m + a);
          (Entries(t.left) + n + b) + m + a;
        }
      }
    }
  }

  /** The node at p sits at index Rank(t, p) of the in-order sequence. */
  lemma EntryAtRank<V>(t: Tree<V>, p: Path)
    requires IsNode(t, p)
    ensures Rank(t, p) < |Entries(t)|
    ensures Entries(t)[Rank(t, p)] == (Subtree(t, p).key, Subtree(t, p).value)
  {
    SplitAt(t, p, Subtree(t, p));
  }

  // ---------------------------------------------------------------------------
  // Path algebra

  lemma {:induction false} SubtreeAppend<V>(t: Tree<V>, p: Path, q: Path)
    ensures Subtree(t, p + q) == Subtree(Subtree(t, p), q)
    ensures IsPosition(t, p + q) == (IsPosition(t, p) && IsPosition(Subtree(t, p), q))
    decreases |p|
  {
    if p == [] {
      assert p + q == q;
    } else if t.Nil? {
      assert (p + q)[0] == p[0];
      if q != [] {
        assert !IsPosition(Subtree(t, p), q);
      }
    } else {
      assert (p + q)[0] == p[0] && (p + q)[1..] == p[1..] + q;
      SubtreeAppend(Child(t, p[0]), p[1..], q);
    }
  }

  lemma {:induction false} ReplaceAppend<V>(t: Tree<V>, p: Path, q: Path, s: Tree<V>)
    requires IsPosition(t, p)
    ensures Replace(t, p + q, s) == Replace(t, p, Replace(Subtree(t, p), q, s))
    decreases |p|
  {
    if p == [] {
      assert p + q == q;
    } else {
      assert (p + q)[0] == p[0] && (p + q)[1..] == p[1..] + q;
      ReplaceAppend(Child(t, p[0]), p[1..], q, s);
    }
  }

  /** What lies below a replaced position is the replacement. */
  lemma {:induction false} SubtreeOfReplace<V>(t: Tree<V>, p: Path, s: Tree<V>, q: Path)
    requires IsPosition(t, p)
    ensures Subtree(Replace(t, p, s), p + q) == Subtree(s, q)
    ensures IsPosition(Replace(t, p, s), p + q) == IsPosition(s, q)
    decreases |p|
  {
    if p == [] {
      assert p + q == q;
    } else {
      assert (p + q)[0] == p[0] && (p + q)[1..] == p[1..] + q;
      SubtreeOfReplace(Child(t, p[0]), p[1..], s, q);
    }
  }

  /** Replacing below a node keeps that node's colour, key and value. */
  lemma {:induction false} ReplaceBelow<V>(t: Tree<V>, p: Path, q: Path, s: Tree<V>)
    requires IsNode(t, p) && q != [] && IsPosition(Subtree(t, p), q)
    ensures IsNode(Replace(t, p + q, s), p)
    ensures Subtree(Replace(t, p + q, s), p).color == Subtree(t, p).color
    ensures Subtree(Replace(t, p + q, s), p).key == Subtree(t, p).key
    ensures Subtree(Replace(t, p + q, s), p).value == Subtree(t, p).value
  {
    ReplaceAppend(t, p, q, s);
    SubtreeOfReplace(t, p, Replace(Subtree(t, p), q, s), []);
    assert p + [] == p;
  }

  /** Replacing at p leaves the positions of the tree above and beside p in place. */
  lemma {:induction false} ReplaceKeepsPrefix<V>(t: Tree<V>, p: Path, q: Path, s: Tree<V>)
    requires IsPosition(t, p + q)
    ensures IsPosition(Replace(t, p + q, s), p)
  {
    SubtreeAppend(t, p, q);
    ReplaceAppend(t, p, q, s);
    SubtreeOfReplace(t, p, Replace(Subtree(t, p), q, s), []);
    assert p + [] == p;
  }

  lemma PositionPrefix<V>(t: Tree<V>, p: Path, q: Path)
    requires IsPosition(t, p + q)
    ensures IsPosition(t, p)
  {
    SubtreeAppend(t, p, q);
  }

  /** A node's children are positions. */
  lemma ChildPosition<V>(t: Tree<V>, p: Path, d: Dir)
    requires IsNode(t, p)
    ensures IsPosition(t, p + [d]) && Subtree(t, p + [d]) == Child(Subtree(t, p), d)
  {
    SubtreeAppend(t, p, [d]);
  }

  /** The parent of a non-root position is a node, and the position is its child. */
  lemma ParentNode<V>(t: Tree<V>, p: Path)
    requires p != [] && IsPosition(t, p)
    ensures IsNode(t, Up(p))
    ensures Subtree(t, p) == Child(Subtree(t, Up(p)), Last(p))
  {
    assert Up(p) + [Last(p)] == p;
    SubtreeAppend(t, Up(p), [Last(p)]);
  }

  // ---------------------------------------------------------------------------
  // Rotations and recolouring (tree_left_rotate, tree_right_rotate, colour writes)

  /** Left rotation of a subtree: the right child y takes x's place, x becomes y's left child. */
  function RotL<V>(x: Tree<V>): Tree<V>
    requires x.Node? && x.right.Node?
  {
    var y := x.right;
    Node(y.color, Node(x.color, x.left, x.key, x.value, y.left), y.key, y.value, y.right)
  }

  /** Right rotation of a subtree: the left child y takes x's place, x becomes y's right child. */
  function RotR<V>(x: Tree<V>): Tree<V>
    requires x.Node? && x.left.Node?
  {
    var y := x.left;
    Node(y.color, y.left, y.key, y.value, Node(x.color, y.right, x.key, x.value, x.right))
  }

  /** tree_left_rotate(tree, x) for the node x at path p. */
  function LeftRotate<V>(t: Tree<V>, p: Path): (r: Tree<V>)
    requires IsNode(t, p) && Subtree(t, p).right.Node?
    ensures Entries(r) == Entries(t)
    ensures IsNode(r, p) && Subtree(r, p) == RotL(Subtree(t, p))
    ensures r == Replace(t, p, RotL(Subtree(t, p)))
  {
    var x := Subtree(t, p);
    SplitAt(t, p, RotL(x));
    SubtreeOfReplace(t, p, RotL(x), []);
    assert p + [] == p;
    Replace(t, p, RotL(x))
  }

  /** tree_right_rotate(tree, x) for the node x at path p. */
  function RightRotate<V>(t: Tree<V>, p: Path): (r: Tree<V>)
    requires IsNode(t, p) && Subtree(t, p).left.Node?
    ensures Entries(r) == Entries(t)
    ensures IsNode(r, p) && Subtree(r, p) == RotR(Subtree(t, p))
    ensures r == Replace(t, p, RotR(Subtree(t, p)))
  {
    var x := Subtree(t, p);
    SplitAt(t, p, RotR(x));
    SubtreeOfReplace(t, p, RotR(x), []);
    assert p + [] == p;
    Replace(t, p, RotR(x))
  }

  /**
   Rotate the node at p so that it moves down on side d (left rotation for
   d == L, right rotation for d == R), as the mirrored halves of the fix-up
   loops do.
   */
  function RotateDown<V>(t: Tree<V>, p: Path, d: Dir): (r: Tree<V>)
    requires IsNode(t, p) && Child(Subtree(t, p), Other(d)).Node?
    ensures Entries(r) == Entries(t)
    ensures IsNode(r, p) && Subtree(r, p) == Rot(Subtree(t, p), d)
    ensures r == Replace(t, p, Rot(Subtree(t, p), d))
  {
    if d == L then LeftRotate(t, p) else RightRotate(t, p)
  }

  /** The local rotation that moves the node x down on side d. */
  function Rot<V>(x: Tree<V>, d: Dir): Tree<V>
    requires x.Node? && Child(x, Other(d)).Node?
  {
    if d == L then RotL(x) else RotR(x)
  }

  /** Local rotations keep the in-order sequence. */
  lemma RotEntries<V>(x: Tree<V>, d: Dir)
    requires x.Node? && Child(x, Other(d)).Node?
    ensures Entries(Rot(x, d)) == Entries(x)
  {
    var _ := RotateDown(x, [], d);
  }

  /** A colour write on a subtree's root; the sentinel keeps its colour. */
  function Recolor<V>(s: Tree<V>, c: Color): (r: Tree<V>)
    ensures Entries(r) == Entries(s) && SameShape(r, s)
    ensures r.Node? ==> r.color == c
  {
    SameShapeRefl(s);
    if s.Nil? then s else s.(color := c)
  }

  /**
   `node->color = c` for the node at position p. Writing to the sentinel
   leaves it as it is: the C code only ever writes BLACK to the sentinel.
   */
  function Paint<V>(t: Tree<V>, p: Path, c: Color): (r: Tree<V>)
    requires IsPosition(t, p)
    ensures Entries(r) == Entries(t)
    ensures IsPosition(r, p)
    ensures Subtree(t, p).Node? ==> Subtree(r, p) == Subtree(t, p).(color := c)
    ensures Subtree(t, p).Nil? ==> r == t
    ensures Subtree(t, p).Node? ==> r == Replace(t, p, Subtree(t, p).(color := c))
  {
    var s := Subtree(t, p);
    if s.Nil? then t
    else
      SplitAt(t, p, s.(color := c));
      SubtreeOfReplace(t, p, s.(color := c), []);
      assert p + [] == p;
      Replace(t, p, s.(color := c))
  }

  /** `tree->root->color = BLACK`, the last statement of both fix-up loops. */
  function BlackenRoot<V>(t: Tree<V>): (r: Tree<V>)
    ensures Entries(r) == Entries(t)
    ensures ColorOf(r) == Black
  {
    if t.Nil? then t else t.(color := Black)
  }

  // ---------------------------------------------------------------------------
  // tree_init, tree_is_empty, tree_node_get_key, tree_node_get_value

  /** tree_init: the root is the sentinel. */
  function Init<V>(): (t: Tree<V>)
    ensures IsEmpty(t) && ColorOf(t) == Black
    ensures Entries(t) == [] && Keys(t) == {}
  {
    Nil
  }

  /** tree_is_empty: the root is the sentinel. */
  predicate IsEmpty<V>(t: Tree<V>) {
    t.Nil?
  }

  lemma IsEmptyIffNoEntries<V>(t: Tree<V>)
    ensures IsEmpty(t) <==> Entries(t) == []
  {
    if t.Node? {
      assert |Entries(t)| > 0;
    }
  }

  /** tree_node_get_key for the node at p: the key at its in-order index. */
  function NodeKey<V>(t: Tree<V>, p: Path): (k: real)
    requires IsNode(t, p)
    ensures Rank(t, p) < |Entries(t)| && k == Entries(t)[Rank(t, p)].0
  {
    EntryAtRank(t, p);
    Subtree(t, p).key
  }

  /** tree_node_get_value for the node at p: the value at its in-order index. */
  function NodeValue<V>(t: Tree<V>, p: Path): (v: V)
    requires IsNode(t, p)
    ensures Rank(t, p) < |Entries(t)| && v == Entries(t)[Rank(t, p)].1
  {
    EntryAtRank(t, p);
    Subtree(t, p).value
  }

  /** Overwrite the key and value stored at the node at p (tree_delete copies the successor this way). */
  function SetEntry<V>(t: Tree<V>, p: Path, k: real, v: V): (r: Tree<V>)
    requires IsNode(t, p)
    ensures Rank(t, p) < |Entries(t)|
    ensures IsNode(r, p) && Rank(r, p) == Rank(t, p)
    ensures Entries(r) == Entries(t)[Rank(t, p) := (k, v)]
    ensures ColorOf(r) == ColorOf(t)
    ensures SameShape(r, t)
  {
    var s := Subtree(t, p);
    var s' := s.(key := k, value := v);
    SplitAt(t, p, s');
    SubtreeOfReplace(t, p, s', []);
    assert p + [] == p;
    BeforeReplace(t, p, s');
    RootColorReplace(t, p, s');
    SameShapeRefl(s.left);
    SameShapeRefl(s.right);
    ReplaceKeepsShape(t, p, s');
    Replace(t, p, s')
  }

  /** Overwrite the value stored at the node at p (the counter update `++(*countptr)` and friends). */
  function SetValue<V>(t: Tree<V>, p: Path, v: V): (r: Tree<V>)
    requires IsNode(t, p)
    ensures Rank(t, p) < |Entries(t)|
    ensures IsNode(r, p) && Rank(r, p) == Rank(t, p)
    ensures Entries(r) == Entries(t)[Rank(t, p) := (Subtree(t, p).key, v)]
    ensures ColorOf(r) == ColorOf(t)
  {
    SetEntry(t, p, Subtree(t, p).key, v)
  }

  // ---------------------------------------------------------------------------
  // Shape: the node/sentinel layout, ignoring colours, keys and values

  predicate SameShape<V>(a: Tree<V>, b: Tree<V>) {
    (a.Nil? && b.Nil?) || (a.Node? && b.Node? && SameShape(a.left, b.left) && SameShape(a.right, b.right))
  }

  lemma SameShapeRefl<V>(a: Tree<V>)
    ensures SameShape(a, a)
  {
  }

  /** Trees of the same shape have the same positions and nodes. */
  lemma {:induction false} ShapePositions<V>(a: Tree<V>, b: Tree<V>, q: Path)
    requires SameShape(a, b)
    ensures IsPosition(a, q) == IsPosition(b, q)
    ensures IsNode(a, q) == IsNode(b, q)
    ensures SameShape(Subtree(a, q), Subtree(b, q))
    decreases |q|
  {
    if q != [] && a.Node? {
      ShapePositions(Child(a, q[0]), Child(b, q[0]), q[1..]);
    }
  }

  /** Same shape and the same key at every node; colours and values may differ. */
  predicate SameKeys<V>(a: Tree<V>, b: Tree<V>) {
    (a.Nil? && b.Nil?) ||
    (a.Node? && b.Node? && a.key == b.key && SameKeys(a.left, b.left) && SameKeys(a.right, b.right))
  }

  lemma SameKeysRefl<V>(a: Tree<V>)
    ensures SameKeys(a, a)
  {
  }

  /** Replacing a subtree by one with the same keys in the same places keeps that for the whole tree. */
  lemma {:induction false} ReplaceKeepsKeys<V>(t: Tree<V>, p: Path, s: Tree<V>)
    requires IsPosition(t, p) && SameKeys(s, Subtree(t, p))
    ensures SameKeys(Replace(t, p, s), t)
    decreases |p|
  {
    if p != [] {
      ReplaceKeepsKeys(Child(t, p[0]), p[1..], s);
      SameKeysRefl(t.left);
      SameKeysRefl(t.right);
    }
  }

  lemma SameKeysSym<V>(a: Tree<V>, b: Tree<V>)
    requires SameKeys(a, b)
    ensures SameKeys(b, a)
  {
  }

  /** Trees with the same keys in the same places have the same node, with the same key, at every path. */
  lemma {:induction false} SameKeysAt<V>(a: Tree<V>, b: Tree<V>, q: Path)
    requires SameKeys(a, b) && IsNode(a, q)
    ensures IsNode(b, q) && Subtree(a, q).key == Subtree(b, q).key
    decreases |q|
  {
    if q != [] {
      SameKeysAt(Child(a, q[0]), Child(b, q[0]), q[1..]);
    }
  }

  /** Overwriting a value keeps every key in its place. */
  lemma SetValueKeepsKeys<V>(t: Tree<V>, p: Path, v: V)
    requires IsNode(t, p)
    ensures SameKeys(SetValue(t, p, v), t)
  {
    var s := Subtree(t, p);
    SameKeysRefl(s.left);
    SameKeysRefl(s.right);
    ReplaceKeepsKeys(t, p, s.(value := v));
  }

  /** Replacing a subtree by one of the same shape keeps the shape of the whole tree. */
  lemma {:induction false} ReplaceKeepsShape<V>(t: Tree<V>, p: Path, s: Tree<V>)
    requires IsPosition(t, p) && SameShape(s, Subtree(t, p))
    ensures SameShape(Replace(t, p, s), t)
    decreases |p|
  {
    if p != [] {
      ReplaceKeepsShape(Child(t, p[0]), p[1..], s);
      SameShapeRefl(t.left);
      SameShapeRefl(t.right);
    }
  }

  lemma {:induction false} BeforeReplace<V>(t: Tree<V>, p: Path, s: Tree<V>)
    requires IsPosition(t, p)
    ensures Before(Replace(t, p, s), p) == Before(t, p)
    ensures After(Replace(t, p, s), p) == After(t, p)
    decreases |p|
  {
    if p != [] {
      BeforeReplace(Child(t, p[0]), p[1..], s);
    }
  }

  lemma RootColorReplace<V>(t: Tree<V>, p: Path, s: Tree<V>)
    requires IsPosition(t, p) && (p == [] ==> ColorOf(s) == ColorOf(t))
    ensures ColorOf(Replace(t, p, s)) == ColorOf(t)
  {
  }

  // ---------------------------------------------------------------------------
  // Keys and order of a node in terms of its children

  lemma KeysNode<V>(t: Tree<V>)
    requires t.Node?
    ensures Keys(t) == Keys(t.left) + {t.key} + Keys(t.right)
  {
    KeysOfConcat(Entries(t.left) + [(t.key, t.value)], Entries(t.right));
    KeysOfConcat(Entries(t.left), [(t.key, t.value)]);
    var m := [(t.key, t.value)];
    assert m[0].0 in KeysOf(m);
    assert KeysOf(m) == {t.key};
  }

  /** An ordered node has ordered children, smaller keys on the left and larger on the right. */
  lemma OrderedNode<V>(t: Tree<V>)
    requires t.Node? && Ordered(t)
    ensures Ordered(t.left) && Ordered(t.right)
    ensures forall k :: k in Keys(t.left) ==> k < t.key
    ensures forall k :: k in Keys(t.right) ==> t.key < k
  {
    var l, r := Entries(t.left), Entries(t.right);
    var es := Entries(t);
    assert es == l + [(t.key, t.value)] + r;
    IncreasingSlices(es, 0, |l|);
    assert es[0..|l|] == l;
    IncreasingSlices(es, |l| + 1, |es|);
    assert es[|l| + 1..|es|] == r;
    forall k | k in Keys(t.left) ensures k < t.key {
      var i := KeysOfIndex(l, k);
      assert es[i] == l[i] && es[|l|].0 == t.key;
    }
    forall k | k in Keys(t.right) ensures t.key < k {
      var i := KeysOfIndex(r, k);
      assert es[|l| + 1 + i] == r[i] && es[|l|].0 == t.key;
    }
  }

  /** Conversely, ordered children around a separating key make an ordered node. */
  lemma NodeOrdered<V>(t: Tree<V>)
    requires t.Node? && Ordered(t.left) && Ordered(t.right)
    requires forall k :: k in Keys(t.left) ==> k < t.key
    requires forall k :: k in Keys(t.right) ==> t.key < k
    ensures Ordered(t)
  {
    var l, r := Entries(t.left), Entries(t.right);
    var m := [(t.key, t.value)];
    forall i, j | 0 <= i < |l| && 0 <= j < |m| ensures l[i].0 < m[j].0 {
      assert l[i].0 in Keys(t.left);
    }
    IncreasingConcat(l, m);
    forall i, j | 0 <= i < |l + m| && 0 <= j < |r| ensures (l + m)[i].0 < r[j].0 {
      assert r[j].0 in Keys(t.right);
      if i < |l| {
        assert (l + m)[i] == l[i];
        assert l[i].0 in Keys(t.left);
      }
    }
    IncreasingConcat(l + m, r);
  }

  lemma {:induction false} BeforeAppend<V>(t: Tree<V>, p: Path, q: Path)
    requires IsPosition(t, p)
    ensures Before(t, p + q) == Before(t, p) + Before(Subtree(t, p), q)
    decreases |p|
  {
    if p == [] {
      assert p + q == q;
    } else {
      assert (p + q)[0] == p[0] && (p + q)[1..] == p[1..] + q;
      BeforeAppend(Child(t, p[0]), p[1..], q);
    }
  }

  /** The rank of a node below p counts the entries before p plus its rank inside the subtree at p. */
  lemma RankAppend<V>(t: Tree<V>, p: Path, q: Path)
    requires IsNode(t, p + q)
    ensures IsPosition(t, p) && IsNode(Subtree(t, p), q)
    ensures Rank(t, p + q) == |Before(t, p)| + Rank(Subtree(t, p), q)
  {
    SubtreeAppend(t, p, q);
    BeforeAppend(t, p, q);
  }
}
