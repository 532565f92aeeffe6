/**
 tree_delete and tree_delete_fixup of trees.c.

 The node to delete is addressed by its path. The fix-up is modelled step by
 step. Two of its colour writes differ from the textbook algorithm
 (RB-DELETE-FIXUP in Cormen, Leiserson, Rivest and Stein, "Introduction to
 Algorithms"), and both variants are modelled: `AsWritten` follows trees.c,
 `Textbook` makes the two textbook writes. Where the C code would read the
 NULL child links of the sentinel, the fix-up gives None.
 */
module RbDelete {
  import opened Options
  import opened Sequences
  import opened RbTree
  import opened RbQuery

  /**
   AsWritten: case 4 blackens x->parent->parent (trees.c:295, trees.c:320)
   and the loop ends by blackening the root only (trees.c:327).
   Textbook: case 4 blackens x->parent, and the loop ends by blackening x
   before the root.
   */
  datatype Fixup = AsWritten | Textbook

  // ---------------------------------------------------------------------------
  // The four cases of tree_delete_fixup, as they act on the subtree rooted at
  // x->parent. `d` is the side of x; the sibling w is on the other side.

  /** Case 1: a RED sibling becomes BLACK, the parent RED, and the parent is rotated down towards x. */
  function RedSibling<V>(s: Tree<V>, d: Dir): (r: Tree<V>)
    requires s.Node? && Child(s, Other(d)).Node?
    ensures Entries(r) == Entries(s)
    ensures r.Node? && Child(r, d).Node? && Child(r, d).color == Red
    ensures Child(Child(r, d), d) == Child(s, d)
  {
    var o := Other(d);
    var s1 := WithChild(s, o, Recolor(Child(s, o), Black)).(color := Red);
    RotEntries(s1, d);
    Rot(s1, d)
  }

  /** Case 2: both children of the sibling are BLACK; the sibling turns RED and x moves up. */
  function BlackNephews<V>(s: Tree<V>, d: Dir): (r: Tree<V>)
    requires s.Node? && Child(s, Other(d)).Node?
    ensures Entries(r) == Entries(s) && r.Node? && r.color == s.color
    ensures SameShape(r, s)
  {
    var o := Other(d);
    SameShapeRefl(s);
    WithChild(s, o, Recolor(Child(s, o), Red))
  }

  /**
   Cases 3 and 4: a child of the sibling is RED. Case 3 first rotates a RED
   near child into the sibling's place; case 4 gives the sibling the parent's
   colour, blackens the sibling's far child and rotates the parent down
   towards x. The textbook case 4 also blackens the parent; trees.c writes
   BLACK one level higher instead, which AtParent makes.
   */
  function RedNephew<V>(s: Tree<V>, d: Dir, f: Fixup): (r: Tree<V>)
    requires s.Node? && Child(s, Other(d)).Node?
    requires ColorOf(Child(Child(s, Other(d)), d)) == Red || ColorOf(Child(Child(s, Other(d)), Other(d))) == Red
    ensures Entries(r) == Entries(s) && r.Node?
  {
    var o := Other(d);
    var w := Child(s, o);
    // case 3
    var w3 :=
      if ColorOf(Child(w, o)) == Black then
        var w2 := WithChild(w, d, Recolor(Child(w, d), Black)).(color := Red);
        RotEntries(w2, o);
        Rot(w2, o)
      else w;
    // case 4
    var w4 := WithChild(w3, o, Recolor(Child(w3, o), Black)).(color := s.color);
    var s4 := WithChild(s, o, w4);
    var s5 := if f == Textbook then s4.(color := Black) else s4;
    RotEntries(s5, d);
    Rot(s5, d)
  }

  /** 0 for a RED node, 1 for a BLACK node or the sentinel: the measure of the fix-up loop. */
  function Blackness<V>(t: Tree<V>): nat {
    if ColorOf(t) == Black then 1 else 0
  }

  /** The statements after the loop: the textbook `x->color = BLACK`, then `tree->root->color = BLACK`. */
  function Finish<V>(t: Tree<V>, x: Path, f: Fixup): (r: Tree<V>)
    requires IsPosition(t, x)
    ensures Entries(r) == Entries(t) && ColorOf(r) == Black
  {
    if f == Textbook then BlackenRoot(Paint(t, x, Black)) else BlackenRoot(t)
  }

  /**
   tree_delete_fixup(tree, x) for the position x (possibly a sentinel slot).
   Each round looks at x's parent p; case 1 moves p one level down, after
   which the parent of x is RED and the round continues in AtParent.
   A sentinel sibling gives None: the C code would go on to read its NULL
   child links (trees.c:283, trees.c:308).
   */
  function DeleteFixup<V>(t: Tree<V>, x: Path, f: Fixup): (r: Option<Tree<V>>)
    requires IsPosition(t, x)
    ensures r.Some? ==> Entries(r.value) == Entries(t) && ColorOf(r.value) == Black
    decreases 2 * |x| + Blackness(Subtree(t, x)), 1
  {
    if x == [] || ColorOf(Subtree(t, x)) == Red then Some(Finish(t, x, f))
    else
      // When x is a sentinel slot whose sibling is also the sentinel, the C
      // test `x == x->parent->left` may pick the wrong side; both sides then
      // see a sentinel sibling and give None.
      var p, d := Up(x), Last(x);
      ParentNode(t, x);
      var s := Subtree(t, p);
      var w := Child(s, Other(d));
      if w.Nil? then None
      else if w.color == Red then
        var s1 := RedSibling(s, d);
        var t1 := Replace(t, p, s1);
        SplitAt(t, p, s);
        SplitAt(t, p, s1);
        SubtreeOfReplace(t, p, s1, [d]);
        AtParent(t1, p + [d], d, f)
      else
        AtParent(t, p, d, f)
  }

  /** The rest of a fix-up round, cases 2 to 4, with x on side d of the node p. */
  function AtParent<V>(t: Tree<V>, p: Path, d: Dir, f: Fixup): (r: Option<Tree<V>>)
    requires IsNode(t, p)
    ensures r.Some? ==> Entries(r.value) == Entries(t) && ColorOf(r.value) == Black
    decreases 2 * |p| + Blackness(Subtree(t, p)) + 1, 0
  {
    var s := Subtree(t, p);
    var o := Other(d);
    var w := Child(s, o);
    SplitAt(t, p, s);
    if w.Nil? then None
    else if ColorOf(w.left) == Black && ColorOf(w.right) == Black then
      var s2 := BlackNephews(s, d);
      SplitAt(t, p, s2);
      SubtreeOfReplace(t, p, s2, []);
      assert p + [] == p;
      DeleteFixup(Replace(t, p, s2), p, f)
    else
      assert ColorOf(Child(w, d)) == Red || ColorOf(Child(w, o)) == Red;
      var s4 := RedNephew(s, d, f);
      SplitAt(t, p, s4);
      var t4 := Replace(t, p, s4);
      // trees.c: x->parent->parent->color = BLACK; this touches no node
      // below p, so it commutes with the case-4 steps made on the subtree at p
      var t5 :=
        if f == Textbook || p == [] then t4
        else (
          assert Up(p) + [Last(p)] == p;
          ReplaceKeepsPrefix(t, Up(p), [Last(p)], s4);
          Paint(t4, Up(p), Black));
      // x = tree->root ends the loop
      Some(Finish(t5, [], f))
  }

  // ---------------------------------------------------------------------------
  // tree_delete

  /** The node actually unlinked: n itself when it lacks a child, else its successor. */
  function Spliced<V>(t: Tree<V>, n: Path): (y: Path)
    requires IsNode(t, n)
    ensures IsNode(t, y)
    ensures Subtree(t, y).left.Nil? || Subtree(t, y).right.Nil?
    ensures y == n || (Subtree(t, n).right.Node? && Rank(t, y) == Rank(t, n) + 1)
  {
    var node := Subtree(t, n);
    if node.left.Nil? || node.right.Nil? then n
    else
      SuccessorInRight(t, n);
      NextNode(t, n).value
  }

  /**
   tree_delete(tree, node) for the node at path n: the in-order sequence
   loses exactly the entry of n, every other entry keeps its place. None is
   the fix-up reading the sentinel's NULL links.
   */
  function Delete<V>(t: Tree<V>, n: Path, f: Fixup): (r: Option<Tree<V>>)
    requires IsNode(t, n)
    ensures Rank(t, n) < |Entries(t)|
    ensures r.Some? ==> Entries(r.value) == RemoveAt(Entries(t), Rank(t, n))
  {
    EntryAtRank(t, n);
    var y := Spliced(t, n);
    var ys := Subtree(t, y);
    var x := if ys.left.Node? then ys.left else ys.right;
    var t1 := Replace(t, y, x);
    SpliceRemoves(t, y);
    SubtreeOfReplace(t, y, x, []);
    assert y + [] == y;
    var t2 :=
      if y != n then
        CopyRemoves(t, n);
        SetEntry(t1, n, ys.key, ys.value)
      else t1;
    if ys.color == Black then DeleteFixup(t2, y, f) else Some(t2)
  }

  /** Copying the successor's entry into n after unlinking the successor removes exactly n's entry. */
  lemma CopyRemoves<V>(t: Tree<V>, n: Path)
    requires IsNode(t, n) && Spliced(t, n) != n
    ensures var y := Spliced(t, n); var ys := Subtree(t, y);
      var t1 := Replace(t, y, if ys.left.Node? then ys.left else ys.right);
      IsNode(t1, n) && IsPosition(SetEntry(t1, n, ys.key, ys.value), y) && Rank(t, n) < |Entries(t)| &&
      Entries(SetEntry(t1, n, ys.key, ys.value)) == RemoveAt(Entries(t), Rank(t, n))
  {
    var y := Spliced(t, n);
    var ys := Subtree(t, y);
    var x := if ys.left.Node? then ys.left else ys.right;
    var t1 := Replace(t, y, x);
    EntryAtRank(t, n);
    SpliceRemoves(t, y);
    SubtreeOfReplace(t, y, x, []);
    assert y + [] == y;
    CopyKeepsNode(t, n, y, x);
    var t2 := SetEntry(t1, n, ys.key, ys.value);
    ShapePositions(t2, t1, y);
    EntryAtRank(t, y);
    RemoveNextOver(Entries(t), Rank(t, n));
  }

  /** Unlinking a node with at most one child removes exactly its entry. */
  lemma SpliceRemoves<V>(t: Tree<V>, y: Path)
    requires IsNode(t, y)
    requires Subtree(t, y).left.Nil? || Subtree(t, y).right.Nil?
    ensures Rank(t, y) < |Entries(t)|
    ensures var ys := Subtree(t, y);
      var x := if ys.left.Node? then ys.left else ys.right;
      Entries(Replace(t, y, x)) == RemoveAt(Entries(t), Rank(t, y))
  {
    var ys := Subtree(t, y);
    var x := if ys.left.Node? then ys.left else ys.right;
    SplitAt(t, y, x);
    EntryAtRank(t, y);
    var l, rr := Entries(ys.left), Entries(ys.right);
    assert Entries(ys) == l + [(ys.key, ys.value)] + rr;
    assert Entries(x) == l + rr by {
      if ys.left.Node? {
        assert rr == [];
      } else {
        assert l == [];
      }
    }
    SpliceEntries(Before(t, y), l, (ys.key, ys.value), rr, After(t, y));
  }

  /** The sequence fact behind SpliceRemoves. */
  lemma SpliceEntries<V>(b: seq<(real, V)>, l: seq<(real, V)>, e: (real, V), rr: seq<(real, V)>, a: seq<(real, V)>)
    ensures RemoveAt(b + (l + [e] + rr) + a, |b| + |l|) == b + (l + rr) + a
  {
    assert b + (l + [e] + rr) + a == (b + l) + [e] + (rr + a);
    assert b + (l + rr) + a == (b + l) + (rr + a);
    RemoveAtMiddle(b + l, e, rr + a);
  }

  /** Unlinking the successor, which lies in n's right subtree, keeps n a node with the same rank. */
  lemma CopyKeepsNode<V>(t: Tree<V>, n: Path, y: Path, x: Tree<V>)
    requires IsNode(t, n) && y == Spliced(t, n) && y != n
    ensures IsNode(Replace(t, y, x), n) && Rank(Replace(t, y, x), n) == Rank(t, n)
  {
    var node := Subtree(t, n);
    var q := LeftSpine(node.right);
    SuccessorInRight(t, n);
    assert y == n + [R] + q;
    assert y == n + ([R] + q);
    var inner := Replace(node, [R] + q, x);
    ReplaceAppend(t, n, [R] + q, x);
    assert ([R] + q)[0] == R && ([R] + q)[1..] == q;
    assert inner == node.(right := Replace(node.right, q, x));
    SubtreeOfReplace(t, n, inner, []);
    assert n + [] == n;
    BeforeReplace(t, n, inner);
  }

  /** Deleting the node at n from an ordered tree keeps it ordered and removes exactly its key. */
  lemma DeleteOrdered<V>(t: Tree<V>, n: Path, f: Fixup)
    requires IsNode(t, n) && Ordered(t) && Delete(t, n, f).Some?
    ensures Ordered(Delete(t, n, f).value)
    ensures Keys(Delete(t, n, f).value) == Keys(t) - {Subtree(t, n).key}
  {
    EntryAtRank(t, n);
    RemoveAtIncreasing(Entries(t), Rank(t, n));
  }
}
