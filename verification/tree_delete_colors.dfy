/**
 The red-black colour rules and tree_delete.

 With the two textbook colour writes (`Textbook`), deletion keeps a
 red-black tree red-black and the fix-up never meets a sentinel sibling. The
 proof follows the loop with the textbook invariant: the subtree at x is
 balanced but one BLACK short of what the rest of the tree needs, and the
 only RED node with a RED child may be x itself.

 As written (`AsWritten`), trees.c breaks the rules, and a later deletion
 from the broken tree reaches the sentinel sibling whose NULL child links
 the C code reads: the lemmas at the end of this module build such trees
 from the empty tree with tree_insert and tree_delete.
 */
module RbDeleteColors {
  import opened Options
  import opened RbTree
  import opened RbInsert
  import opened RbDelete
  import opened RbColors

  // ---------------------------------------------------------------------------
  // A subtree one BLACK short

  /** The black height t would have if the subtree at p had black height h. */
  function HeightWith<V>(t: Tree<V>, p: Path, h: nat): nat
    decreases |p|
  {
    if p == [] || t.Nil? then h
    else HeightWith(Child(t, p[0]), p[1..], h) + (if t.color == Black then 1 else 0)
  }

  /**
   Every subtree hanging off the path p is balanced, and a balanced subtree
   of black height h at p would make the whole tree balanced.
   */
  predicate HoleFor<V>(t: Tree<V>, p: Path, h: nat)
    decreases |p|
  {
    p == [] ||
    (t.Node? && HoleFor(Child(t, p[0]), p[1..], h) && Balanced(Child(t, Other(p[0]))) &&
     HeightWith(Child(t, p[0]), p[1..], h) == BlackHeight(Child(t, Other(p[0]))))
  }

  /** Filling the hole with a balanced subtree of the height it needs balances the tree. */
  lemma {:induction false} Plug<V>(t: Tree<V>, p: Path, s: Tree<V>)
    requires IsPosition(t, p) && HoleFor(t, p, BlackHeight(s)) && Balanced(s)
    ensures Balanced(Replace(t, p, s)) && BlackHeight(Replace(t, p, s)) == HeightWith(t, p, BlackHeight(s))
    decreases |p|
  {
    if p != [] {
      Plug(Child(t, p[0]), p[1..], s);
    }
  }

  /** The hole does not depend on what the subtree at p is. */
  lemma {:induction false} HoleReplace<V>(t: Tree<V>, p: Path, s: Tree<V>, h: nat)
    requires IsPosition(t, p)
    ensures HoleFor(Replace(t, p, s), p, h) == HoleFor(t, p, h)
    ensures HeightWith(Replace(t, p, s), p, h) == HeightWith(t, p, h)
    decreases |p|
  {
    if p != [] {
      HoleReplace(Child(t, p[0]), p[1..], s, h);
    }
  }

  /** In a balanced tree every position is a hole for the black height of its own subtree. */
  lemma {:induction false} BalancedHole<V>(t: Tree<V>, p: Path)
    requires Balanced(t) && IsPosition(t, p)
    ensures HoleFor(t, p, BlackHeight(Subtree(t, p)))
    ensures HeightWith(t, p, BlackHeight(Subtree(t, p))) == BlackHeight(t)
    decreases |p|
  {
    if p != [] {
      BalancedHole(Child(t, p[0]), p[1..]);
    }
  }

  /** A hole at p + q is a hole at q inside the subtree at p, inside a hole at p. */
  lemma {:induction false} HoleAppend<V>(t: Tree<V>, p: Path, q: Path, h: nat)
    requires IsPosition(t, p)
    ensures HoleFor(t, p + q, h) == (HoleFor(t, p, HeightWith(Subtree(t, p), q, h)) && HoleFor(Subtree(t, p), q, h))
    ensures HeightWith(t, p + q, h) == HeightWith(t, p, HeightWith(Subtree(t, p), q, h))
    decreases |p|
  {
    if p == [] {
      assert p + q == q;
    } else {
      assert (p + q)[0] == p[0] && (p + q)[1..] == p[1..] + q;
      HoleAppend(Child(t, p[0]), p[1..], q, h);
    }
  }

  // ---------------------------------------------------------------------------
  // The loop invariant of the textbook fix-up

  /**
   The subtree at x is balanced and one BLACK short of the hole it sits in,
   and painting x BLACK leaves no RED node with a RED child.
   */
  predicate DeleteInv<V>(t: Tree<V>, x: Path) {
    IsPosition(t, x) && Balanced(Subtree(t, x)) &&
    HoleFor(t, x, BlackHeight(Subtree(t, x)) + 1) &&
    NoRedRed(Paint(t, x, Black))
  }

  /** Painting the root BLACK keeps the colour rules and gives a red-black tree. */
  lemma BlackenRootRedBlack<V>(t: Tree<V>)
    requires NoRedRed(t) && Balanced(t)
    ensures IsRedBlack(BlackenRoot(t))
  {
    if t.Node? {
      assert BlackenRoot(t).left == t.left && BlackenRoot(t).right == t.right;
    }
  }

  /** When the loop stops, painting x and then the root BLACK leaves a red-black tree. */
  lemma FinishRedBlack<V>(t: Tree<V>, x: Path)
    requires DeleteInv(t, x) && (x == [] || ColorOf(Subtree(t, x)) == Red)
    ensures IsRedBlack(Finish(t, x, Textbook))
  {
    var xs := Subtree(t, x);
    var u := Paint(t, x, Black);
    if ColorOf(xs) == Red {
      // the extra BLACK fills the hole
      var xb := xs.(color := Black);
      assert u == Replace(t, x, xb);
      assert xb.left == xs.left && xb.right == xs.right;
      assert Balanced(xb) && BlackHeight(xb) == BlackHeight(xs) + 1;
      Plug(t, x, xb);
    } else if xs.Node? {
      assert u == Replace(t, [], xs.(color := Black)) == xs;
    }
    BlackenRootRedBlack(u);
  }

  /** What the invariant says about the subtree at x's parent, for a BLACK x below the root. */
  lemma ParentFacts<V>(t: Tree<V>, x: Path)
    requires DeleteInv(t, x) && x != [] && ColorOf(Subtree(t, x)) == Black
    ensures var p, d := Up(x), Last(x);
      var s := Subtree(t, p);
      var h := BlackHeight(Subtree(t, x));
      IsNode(t, p) && x == p + [d] && Child(s, d) == Subtree(t, x) &&
      NoRedRed(t) && NoRedRed(s) && Balanced(Child(s, d)) &&
      Child(s, Other(d)).Node? && Balanced(Child(s, Other(d))) && BlackHeight(Child(s, Other(d))) == h + 1 &&
      HoleFor(t, p, h + 1 + (if s.color == Black then 1 else 0))
  {
    var p, d := Up(x), Last(x);
    ParentNode(t, x);
    assert x == p + [d];
    var s := Subtree(t, p);
    var xs := Subtree(t, x);
    var h := BlackHeight(xs);
    // painting a BLACK x changes nothing
    if xs.Node? {
      ReplaceSame(t, x);
      assert xs.(color := Black) == xs;
    }
    assert Paint(t, x, Black) == t;
    NoRedRedSub(t, p);
    HoleAppend(t, p, [d], h + 1);
    assert [d][0] == d && [d][1..] == [];
    assert HoleFor(s, [d], h + 1);
    assert HeightWith(s, [d], h + 1) == h + 1 + (if s.color == Black then 1 else 0);
  }

  // ---------------------------------------------------------------------------
  // The cases, on the subtree at x's parent

  /** A node over two balanced children of equal black height is balanced. */
  lemma JoinBalanced<V>(r: Tree<V>)
    requires r.Node? && Balanced(r.left) && Balanced(r.right) && BlackHeight(r.left) == BlackHeight(r.right)
    ensures Balanced(r)
    ensures BlackHeight(r) == BlackHeight(r.left) + (if r.color == Black then 1 else 0)
  {
  }

  /** Painting a RED node BLACK keeps the colour rules and adds one BLACK to its height. */
  lemma Blacken<V>(n: Tree<V>)
    requires n.Node? && n.color == Red && NoRedRed(n) && Balanced(n)
    ensures NoRedRed(n.(color := Black)) && Balanced(n.(color := Black))
    ensures BlackHeight(n.(color := Black)) == BlackHeight(n) + 1
  {
    assert n.(color := Black).left == n.left && n.(color := Black).right == n.right;
  }

  /** A node whose children satisfy the colour rules with equal black heights satisfies them too. */
  lemma Join<V>(r: Tree<V>)
    requires r.Node? && Balanced(r.left) && Balanced(r.right) && BlackHeight(r.left) == BlackHeight(r.right)
    requires NoRedRed(r.left) && NoRedRed(r.right)
    requires r.color == Red ==> ColorOf(r.left) == Black && ColorOf(r.right) == Black
    ensures Balanced(r) && NoRedRed(r)
    ensures BlackHeight(r) == BlackHeight(r.left) + (if r.color == Black then 1 else 0)
  {
  }

  /** Case 1 leaves a BLACK top, a RED parent over x, and BLACK subtrees one BLACK taller than x beside them. */
  lemma RedSiblingFacts<V>(s: Tree<V>, d: Dir)
    requires s.Node? && NoRedRed(s) && Balanced(Child(s, d)) && ColorOf(Child(s, d)) == Black
    requires Child(s, Other(d)).Node? && Child(s, Other(d)).color == Red
    requires Balanced(Child(s, Other(d))) && BlackHeight(Child(s, Other(d))) == BlackHeight(Child(s, d)) + 1
    ensures var r := RedSibling(s, d); var c := Child(r, d); var h := BlackHeight(Child(s, d));
      s.color == Black && r.color == Black && NoRedRed(r) &&
      Balanced(Child(c, Other(d))) && BlackHeight(Child(c, Other(d))) == h + 1 && ColorOf(Child(c, Other(d))) == Black &&
      Balanced(Child(r, Other(d))) && BlackHeight(Child(r, Other(d))) == h + 1
  {
    var w := Child(s, Other(d));
    var r := RedSibling(s, d);
    assert NoRedRed(w) && NoRedRed(Child(s, d));
    assert NoRedRed(w.left) && NoRedRed(w.right) && ColorOf(w.left) == Black && ColorOf(w.right) == Black;
    assert Balanced(w.left) && Balanced(w.right) && BlackHeight(w.left) == BlackHeight(w) == BlackHeight(w.right);
    if d == L {
      var c := Node(Red, s.left, s.key, s.value, w.left);
      assert r == Node(Black, c, w.key, w.value, w.right);
      assert NoRedRed(c);
    } else {
      var c := Node(Red, w.right, s.key, s.value, s.right);
      assert r == Node(Black, w.left, w.key, w.value, c);
      assert NoRedRed(c);
    }
  }

  /** Case 2 balances the parent's subtree at x's height; with the parent painted BLACK no RED-RED pair is left. */
  lemma BlackNephewsFacts<V>(s: Tree<V>, d: Dir)
    requires s.Node? && NoRedRed(s) && Balanced(Child(s, d))
    requires Child(s, Other(d)).Node? && Child(s, Other(d)).color == Black
    requires Balanced(Child(s, Other(d))) && BlackHeight(Child(s, Other(d))) == BlackHeight(Child(s, d)) + 1
    requires ColorOf(Child(s, Other(d)).left) == Black && ColorOf(Child(s, Other(d)).right) == Black
    ensures var r := BlackNephews(s, d);
      Balanced(r) && BlackHeight(r) == BlackHeight(Child(s, d)) + (if s.color == Black then 1 else 0) &&
      NoRedRed(r.(color := Black))
  {
    var w := Child(s, Other(d));
    var wr := w.(color := Red);
    assert NoRedRed(w) && NoRedRed(Child(s, d));
    assert wr.left == w.left && wr.right == w.right;
    JoinBalanced(wr);
    var r := BlackNephews(s, d);
    if d == L {
      assert r == s.(right := wr);
    } else {
      assert r == s.(left := wr);
    }
    JoinBalanced(r);
    Join(r.(color := Black));
  }

  /** Textbook cases 3 and 4 fill the hole: the parent's subtree keeps its colour and gains one BLACK. */
  lemma RedNephewFacts<V>(s: Tree<V>, d: Dir)
    requires s.Node? && NoRedRed(s) && Balanced(Child(s, d))
    requires Child(s, Other(d)).Node? && Child(s, Other(d)).color == Black
    requires Balanced(Child(s, Other(d))) && BlackHeight(Child(s, Other(d))) == BlackHeight(Child(s, d)) + 1
    requires ColorOf(Child(Child(s, Other(d)), d)) == Red || ColorOf(Child(Child(s, Other(d)), Other(d))) == Red
    ensures var r := RedNephew(s, d, Textbook);
      r.color == s.color && NoRedRed(r) && Balanced(r) &&
      BlackHeight(r) == BlackHeight(Child(s, d)) + 1 + (if s.color == Black then 1 else 0)
  {
    var w := Child(s, Other(d));
    var r := RedNephew(s, d, Textbook);
    assert NoRedRed(w) && NoRedRed(Child(s, d));
    assert Balanced(w.left) && Balanced(w.right) && BlackHeight(w.left) == BlackHeight(w.right) == BlackHeight(Child(s, d));
    if d == L && ColorOf(w.right) == Red {
      var a, b := Node(Black, s.left, s.key, s.value, w.left), w.right.(color := Black);
      assert r == Node(s.color, a, w.key, w.value, b);
      Join(a);
      Blacken(w.right);
      Join(r);
    } else if d == L {
      var n := w.left;
      assert ColorOf(n) == Red && n.Node?;
      assert NoRedRed(n) && NoRedRed(n.left) && NoRedRed(n.right) && Balanced(n.left) && Balanced(n.right);
      var a, b := Node(Black, s.left, s.key, s.value, n.left), Node(Black, n.right, w.key, w.value, w.right);
      assert r == Node(s.color, a, n.key, n.value, b);
      Join(a);
      Join(b);
      Join(r);
    } else if ColorOf(w.left) == Red {
      var a, b := w.left.(color := Black), Node(Black, w.right, s.key, s.value, s.right);
      assert r == Node(s.color, a, w.key, w.value, b);
      Blacken(w.left);
      Join(b);
      Join(r);
    } else {
      var n := w.right;
      assert ColorOf(n) == Red && n.Node?;
      assert NoRedRed(n) && NoRedRed(n.left) && NoRedRed(n.right) && Balanced(n.left) && Balanced(n.right);
      var a, b := Node(Black, w.left, w.key, w.value, n.left), Node(Black, n.right, s.key, s.value, s.right);
      assert r == Node(s.color, a, n.key, n.value, b);
      Join(a);
      Join(b);
      Join(r);
    }
  }

  // ---------------------------------------------------------------------------
  // The loop, and tree_delete

  /**
   From the invariant, the fix-up never meets a sentinel sibling, with either
   colour writes; the textbook writes end in a red-black tree.
   */
  lemma {:induction false} DeleteFixupRedBlack<V>(t: Tree<V>, x: Path, f: Fixup)
    requires DeleteInv(t, x)
    ensures DeleteFixup(t, x, f).Some?
    ensures f == Textbook ==> IsRedBlack(DeleteFixup(t, x, f).value)
    decreases 2 * |x| + Blackness(Subtree(t, x)), 1
  {
    if x == [] || ColorOf(Subtree(t, x)) == Red {
      if f == Textbook {
        FinishRedBlack(t, x);
      }
    } else {
      var p, d := Up(x), Last(x);
      ParentFacts(t, x);
      var s := Subtree(t, p);
      var o := Other(d);
      var w := Child(s, o);
      var h := BlackHeight(Child(s, d));
      if w.color == Red {
        RedSiblingFacts(s, d);
        var s1 := RedSibling(s, d);
        var t1 := Replace(t, p, s1);
        var c := Child(s1, d);
        SubtreeOfReplace(t, p, s1, [d]);
        AtReplaced(t, p, s1);
        assert Subtree(t1, p + [d]) == c by {
          assert Subtree(s1, [d]) == c;
        }
        // NoRedRed survives: s and s1 are both BLACK at the top
        ReplaceSame(t, p);
        NoRedRedReplace(t, p, s, s1);
        // the hole moves one level down, into the RED c
        HoleReplace(t, p, s1, h + 2);
        HoleAppend(t1, p, [d], h + 1);
        assert [d][0] == d && [d][1..] == [];
        assert HoleFor(s1, [d], h + 1);
        assert HeightWith(s1, [d], h + 1) == h + 2;
        AtParentRedBlack(t1, p + [d], d, f);
        assert DeleteFixup(t, x, f) == AtParent(t1, p + [d], d, f);
      } else {
        AtParentRedBlack(t, p, d, f);
      }
    }
  }

  /** The requires of AtParentRedBlack: a BLACK sibling one BLACK taller than a BLACK x. */
  predicate SiblingTaller<V>(t: Tree<V>, p: Path, d: Dir)
    requires IsNode(t, p)
  {
    var s := Subtree(t, p); var x, w := Child(s, d), Child(s, Other(d));
    NoRedRed(t) &&
    Balanced(x) && ColorOf(x) == Black && Balanced(w) && ColorOf(w) == Black &&
    BlackHeight(w) == BlackHeight(x) + 1 &&
    HoleFor(t, p, BlackHeight(x) + 1 + (if s.color == Black then 1 else 0))
  }

  /** Case 2 moves the hole up to the parent, which keeps its colour. */
  lemma BlackNephewsInv<V>(t: Tree<V>, p: Path, d: Dir)
    requires IsNode(t, p) && SiblingTaller(t, p, d)
    requires var w := Child(Subtree(t, p), Other(d)); ColorOf(w.left) == Black && ColorOf(w.right) == Black
    ensures var s2 := BlackNephews(Subtree(t, p), d);
      Subtree(Replace(t, p, s2), p) == s2 && DeleteInv(Replace(t, p, s2), p)
  {
    var s := Subtree(t, p);
    var h := BlackHeight(Child(s, d));
    NoRedRedSub(t, p);
    ReplaceSame(t, p);
    BlackNephewsFacts(s, d);
    var s2 := BlackNephews(s, d);
    AtReplaced(t, p, s2);
    HoleReplace(t, p, s2, h + 1 + (if s.color == Black then 1 else 0));
    ReplaceTwice(t, p, s2, s2.(color := Black));
    NoRedRedReplace(t, p, s, s2.(color := Black));
  }

  /** Cases 3 and 4 fill the hole, and painting the root BLACK ends in a red-black tree. */
  lemma RedNephewRedBlack<V>(t: Tree<V>, p: Path, d: Dir)
    requires IsNode(t, p) && SiblingTaller(t, p, d)
    requires var w := Child(Subtree(t, p), Other(d)); ColorOf(w.left) == Red || ColorOf(w.right) == Red
    ensures IsRedBlack(Finish(Replace(t, p, RedNephew(Subtree(t, p), d, Textbook)), [], Textbook))
  {
    var s := Subtree(t, p);
    NoRedRedSub(t, p);
    ReplaceSame(t, p);
    assert ColorOf(Child(Child(s, Other(d)), d)) == Red || ColorOf(Child(Child(s, Other(d)), Other(d))) == Red;
    RedNephewFacts(s, d);
    var s4 := RedNephew(s, d, Textbook);
    var t4 := Replace(t, p, s4);
    Plug(t, p, s4);
    NoRedRedReplace(t, p, s, s4);
    var u := t4.(color := Black);
    assert u.left == t4.left && u.right == t4.right;
    assert Paint(t4, [], Black) == u;
    BlackenRootRedBlack(u);
  }

  /** Cases 2 to 4 with a BLACK sibling one BLACK taller than x. */
  lemma {:induction false} AtParentRedBlack<V>(t: Tree<V>, p: Path, d: Dir, f: Fixup)
    requires IsNode(t, p) && SiblingTaller(t, p, d)
    ensures AtParent(t, p, d, f).Some?
    ensures f == Textbook ==> IsRedBlack(AtParent(t, p, d, f).value)
    decreases 2 * |p| + Blackness(Subtree(t, p)) + 1, 0
  {
    var s := Subtree(t, p);
    var w := Child(s, Other(d));
    if ColorOf(w.left) == Black && ColorOf(w.right) == Black {
      BlackNephewsInv(t, p, d);
      DeleteFixupRedBlack(Replace(t, p, BlackNephews(s, d)), p, f);
    } else if f == Textbook {
      RedNephewRedBlack(t, p, d);
    }
  }

  /** The colour rules, the hole and the invariant see only the colours. */
  lemma {:induction false} HoleColors<V>(a: Tree<V>, b: Tree<V>, p: Path, h: nat)
    requires SameColors(a, b)
    ensures HoleFor(a, p, h) == HoleFor(b, p, h) && HeightWith(a, p, h) == HeightWith(b, p, h)
    decreases |p|
  {
    if p != [] && a.Node? {
      HoleColors(Child(a, p[0]), Child(b, p[0]), p[1..], h);
      ColorsRules(Child(a, Other(p[0])), Child(b, Other(p[0])));
    }
  }

  lemma InvColors<V>(a: Tree<V>, b: Tree<V>, x: Path)
    requires SameColors(a, b) && DeleteInv(a, x)
    ensures DeleteInv(b, x)
  {
    ColorsAt(a, b, x);
    ColorsRules(Subtree(a, x), Subtree(b, x));
    HoleColors(a, b, x, BlackHeight(Subtree(a, x)) + 1);
    var sa, sb := Subtree(a, x), Subtree(b, x);
    if sa.Node? {
      ColorsRefl(sa.left);
      ColorsRefl(sa.right);
      ColorsRefl(sb.left);
      ColorsRefl(sb.right);
      assert SameColors(sa.(color := Black), sb.(color := Black));
      ColorsReplace(a, b, x, sa.(color := Black), sb.(color := Black));
    }
    ColorsRules(Paint(a, x, Black), Paint(b, x, Black));
  }

  /** The child that takes the place of the unlinked node y. */
  function Lifted<V>(t: Tree<V>, y: Path): Tree<V>
    requires IsNode(t, y)
  {
    var ys := Subtree(t, y);
    if ys.left.Node? then ys.left else ys.right
  }

  /** Unlinking a BLACK node with at most one child leaves the fix-up's invariant at its place. */
  lemma UnlinkBlackInv<V>(t: Tree<V>, y: Path)
    requires IsNode(t, y) && IsRedBlack(t) && Subtree(t, y).color == Black
    requires Subtree(t, y).left.Nil? || Subtree(t, y).right.Nil?
    ensures DeleteInv(Replace(t, y, Lifted(t, y)), y)
  {
    var ys := Subtree(t, y);
    var x := Lifted(t, y);
    NoRedRedSub(t, y);
    BalancedSub(t, y);
    BalancedHole(t, y);
    AtReplaced(t, y, x);
    ReplaceSame(t, y);
    assert Balanced(x) && NoRedRed(x) && BlackHeight(ys.left) == BlackHeight(ys.right) == BlackHeight(x);
    // x inherits the BLACK of y and is one BLACK short
    HoleReplace(t, y, x, BlackHeight(ys));
    var xb := BlackenRoot(x);
    assert NoRedRed(xb) by {
      if x.Node? {
        assert xb.left == x.left && xb.right == x.right;
      }
    }
    if x.Node? {
      ReplaceTwice(t, y, x, xb);
    }
    NoRedRedReplace(t, y, ys, xb);
  }

  /** Unlinking a RED node with at most one child leaves a red-black tree. */
  lemma UnlinkRedRedBlack<V>(t: Tree<V>, y: Path)
    requires IsNode(t, y) && IsRedBlack(t) && Subtree(t, y).color == Red
    requires Subtree(t, y).left.Nil? || Subtree(t, y).right.Nil?
    ensures IsRedBlack(Replace(t, y, Lifted(t, y)))
  {
    var ys := Subtree(t, y);
    var x := Lifted(t, y);
    NoRedRedSub(t, y);
    BalancedSub(t, y);
    BalancedHole(t, y);
    ReplaceSame(t, y);
    // a RED y has two sentinel children
    assert x.Nil?;
    Plug(t, y, x);
    NoRedRedReplace(t, y, ys, x);
    RootColorReplace(t, y, x);
  }

  /**
   With the textbook colour writes, deleting any node of a red-black tree
   succeeds and leaves a red-black tree.
   */
  lemma DeleteRedBlack<V>(t: Tree<V>, n: Path, f: Fixup)
    requires IsNode(t, n) && IsRedBlack(t)
    ensures Delete(t, n, f).Some?
    ensures f == Textbook ==> IsRedBlack(Delete(t, n, f).value)
  {
    var y := Spliced(t, n);
    var ys := Subtree(t, y);
    var t1 := Replace(t, y, Lifted(t, y));
    if y != n {
      CopyKeepsNode(t, n, y, Lifted(t, y));
      SetEntryColors(t1, n, ys.key, ys.value);
    }
    var t2 := if y != n then SetEntry(t1, n, ys.key, ys.value) else t1;
    if ys.color == Black {
      UnlinkBlackInv(t, y);
      if y != n {
        InvColors(t1, t2, y);
      }
      DeleteFixupRedBlack(t2, y, f);
    } else {
      UnlinkRedRedBlack(t, y);
      if y != n {
        ColorsRules(t1, t2);
      }
    }
  }

  // ---------------------------------------------------------------------------
  // The colour writes of trees.c, from the empty tree

  /** tree_insert of each key in turn, value 0, from t; None once an insertion fails. */
  function InsertAll(t: Tree<int>, keys: seq<real>): Option<Tree<int>>
    decreases |keys|
  {
    if keys == [] then Some(t)
    else match Insert(t, keys[0], 0)
      case None => None
      case Some(t1) => InsertAll(t1, keys[1..])
  }

  function Leaf(c: Color, k: real): Tree<int> {
    Node(c, Nil, k, 0, Nil)
  }

  /** The tree tree_insert builds from 10, 5, 15, 3, 7, 8. */
  const SixNodes: Tree<int> :=
    Node(Black, Node(Red, Leaf(Black, 3.0), 5.0, 0, Node(Black, Nil, 7.0, 0, Leaf(Red, 8.0))), 10.0, 0, Leaf(Black, 15.0))

  /** SixNodes after deleting 3 with the colour writes of trees.c. */
  const SixLess3: Tree<int> :=
    Node(Black, Node(Red, Leaf(Red, 5.0), 7.0, 0, Leaf(Black, 8.0)), 10.0, 0, Leaf(Black, 15.0))

  /** The trees tree_insert builds from 10, 5, 15, 3, 7, 8, one per prefix of the keys. */
  function SixPrefix(n: nat): Tree<int>
    requires 1 <= n <= 6
  {
    if n == 1 then Leaf(Black, 10.0)
    else if n == 2 then Node(Black, Leaf(Red, 5.0), 10.0, 0, Nil)
    else if n == 3 then Node(Black, Leaf(Red, 5.0), 10.0, 0, Leaf(Red, 15.0))
    else if n == 4 then Node(Black, Node(Black, Leaf(Red, 3.0), 5.0, 0, Nil), 10.0, 0, Leaf(Black, 15.0))
    else if n == 5 then Node(Black, Node(Black, Leaf(Red, 3.0), 5.0, 0, Leaf(Red, 7.0)), 10.0, 0, Leaf(Black, 15.0))
    else SixNodes
  }

  lemma InsertAllStep(t: Tree<int>, k: real, ks: seq<real>, t1: Tree<int>)
    requires Insert(t, k, 0) == Some(t1)
    ensures InsertAll(t, [k] + ks) == InsertAll(t1, ks)
  {
    assert ([k] + ks)[0] == k && ([k] + ks)[1..] == ks;
  }

  /** SixPrefix(5) with 8 hung below 7, before the fix-up. */
  const EightHung: Tree<int> :=
    Node(Black, Node(Black, Leaf(Red, 3.0), 5.0, 0, Node(Red, Nil, 7.0, 0, Leaf(Red, 8.0))), 10.0, 0, Leaf(Black, 15.0))

  lemma FixupEight()
    ensures InsertFixup(EightHung, [L, R, R]) == SixNodes
  {
    // the uncle 3 is RED: 3 and 7 turn BLACK, 5 turns RED under the BLACK 10
    var r := EightHung;
    var t1 := Node(Black, Node(Black, Leaf(Red, 3.0), 5.0, 0, Node(Black, Nil, 7.0, 0, Leaf(Red, 8.0))), 10.0, 0, Leaf(Black, 15.0));
    assert Paint(r, [L, R], Black) == t1;
    var t2 := Node(Black, Node(Black, Leaf(Black, 3.0), 5.0, 0, Node(Black, Nil, 7.0, 0, Leaf(Red, 8.0))), 10.0, 0, Leaf(Black, 15.0));
    assert Paint(t1, [L, L], Black) == t2;
    assert Paint(t2, [L], Red) == SixNodes;
    assert Up([L, R, R]) == [L, R] && Up([L, R]) == [L] && Last([L, R]) == R && [L] + [L] == [L, L];
    assert ColorOf(Subtree(r, [L, R])) == Red && ColorOf(Subtree(r, [L, L])) == Red;
    assert InsertFixup(r, [L, R, R]) == InsertFixup(SixNodes, [L]);
  }

  lemma InsertEight()
    ensures Insert(SixPrefix(5), 8.0, 0) == Some(SixNodes)
  {
    var t := SixPrefix(5);
    assert DescentPath(t, 8.0) == [L, R, R];
    assert Up([L, R, R]) == [L, R];
    assert Replace(t, [L, R, R], Leaf(Red, 8.0)) == EightHung;
    FixupEight();
  }

  lemma BuildSix()
    ensures InsertAll(SixPrefix(5), [8.0]) == Some(SixNodes)
  {
    InsertEight();
    InsertAllStep(SixPrefix(5), 8.0, [], SixNodes);
  }

  lemma BuildFive()
    ensures InsertAll(SixPrefix(4), [7.0, 8.0]) == Some(SixNodes)
  {
    assert Insert(SixPrefix(4), 7.0, 0) == Some(SixPrefix(5));
    InsertAllStep(SixPrefix(4), 7.0, [8.0], SixPrefix(5));
    BuildSix();
  }

  lemma BuildFour()
    ensures InsertAll(SixPrefix(3), [3.0, 7.0, 8.0]) == Some(SixNodes)
  {
    // the uncle 15 is RED: 5 and 15 turn BLACK, 10 turns RED and then BLACK as the root
    var t := SixPrefix(3);
    assert DescentPath(t, 3.0) == [L, L];
    var r := Node(Black, Node(Red, Leaf(Red, 3.0), 5.0, 0, Nil), 10.0, 0, Leaf(Red, 15.0));
    assert Replace(t, [L, L], Leaf(Red, 3.0)) == r;
    var t1 := Node(Black, Node(Black, Leaf(Red, 3.0), 5.0, 0, Nil), 10.0, 0, Leaf(Red, 15.0));
    assert Paint(r, [L], Black) == t1;
    var t2 := SixPrefix(4);
    assert Paint(t1, [R], Black) == t2;
    assert Paint(t2, [], Red) == t2.(color := Red);
    assert Up([L, L]) == [L] && Up([L]) == [] && Last([L]) == L && [] + [R] == [R];
    assert ColorOf(Subtree(r, [L])) == Red && ColorOf(Subtree(r, [R])) == Red;
    assert InsertFixup(r, [L, L]) == InsertFixup(t2.(color := Red), []);
    InsertAllStep(t, 3.0, [7.0, 8.0], t2);
    BuildFive();
  }

  lemma BuildSixNodes()
    ensures InsertAll(Init(), [10.0, 5.0, 15.0, 3.0, 7.0, 8.0]) == Some(SixNodes)
  {
    assert Insert(Init(), 10.0, 0) == Some(SixPrefix(1));
    InsertAllStep(Init(), 10.0, [5.0, 15.0, 3.0, 7.0, 8.0], SixPrefix(1));
    assert Insert(SixPrefix(1), 5.0, 0) == Some(SixPrefix(2));
    InsertAllStep(SixPrefix(1), 5.0, [15.0, 3.0, 7.0, 8.0], SixPrefix(2));
    assert Insert(SixPrefix(2), 15.0, 0) == Some(SixPrefix(3));
    InsertAllStep(SixPrefix(2), 15.0, [3.0, 7.0, 8.0], SixPrefix(3));
    BuildFour();
  }

  lemma DeleteThree()
    ensures Delete(SixNodes, [L, L], AsWritten) == Some(SixLess3)
  {
    var t1 := Node(Black, Node(Red, Nil, 5.0, 0, Node(Black, Nil, 7.0, 0, Leaf(Red, 8.0))), 10.0, 0, Leaf(Black, 15.0));
    assert Replace(SixNodes, [L, L], Nil) == t1;
    assert DeleteFixup(t1, [L, L], AsWritten) == AtParent(t1, [L], L, AsWritten);
  }

  /** SixLess3 with 8 unlinked, and the same tree after fix-up case 1 at 5. */
  const SixLess38: Tree<int> := Node(Black, Node(Red, Leaf(Red, 5.0), 7.0, 0, Nil), 10.0, 0, Leaf(Black, 15.0))
  const SixLess38Rotated: Tree<int> := Node(Black, Node(Black, Nil, 5.0, 0, Leaf(Red, 7.0)), 10.0, 0, Leaf(Black, 15.0))

  lemma UnlinkEight()
    ensures Delete(SixLess3, [L, R], AsWritten) == DeleteFixup(SixLess38, [L, R], AsWritten)
  {
    assert Spliced(SixLess3, [L, R]) == [L, R];
    assert Replace(SixLess3, [L, R], Nil) == SixLess38;
  }

  lemma RotateAtSeven()
    ensures DeleteFixup(SixLess38, [L, R], AsWritten) == AtParent(SixLess38Rotated, [L, R], R, AsWritten)
  {
    var s := Node(Red, Leaf(Red, 5.0), 7.0, 0, Nil);
    assert Up([L, R]) == [L] && Last([L, R]) == R && [L] + [R] == [L, R];
    assert Subtree(SixLess38, [L]) == s;
    var s1 := Node(Black, Nil, 5.0, 0, Leaf(Red, 7.0));
    assert RedSibling(s, R) == s1;
    assert Replace(SixLess38, [L], s1) == SixLess38Rotated;
  }

  lemma SentinelBesideEight()
    ensures AtParent(SixLess38Rotated, [L, R], R, AsWritten).None?
  {
    assert Subtree(SixLess38Rotated, [L, R]) == Leaf(Red, 7.0);
  }

  lemma DeleteEight()
    ensures Delete(SixLess3, [L, R], AsWritten).None?
  {
    UnlinkEight();
    RotateAtSeven();
    SentinelBesideEight();
  }

  /**
   Case 4 as written leaves x's parent RED (trees.c:295): inserting 10, 5,
   15, 3, 7, 8 and deleting 3 gives a RED node with a RED child and unequal
   black heights, and deleting 8 next meets a sentinel sibling, whose NULL
   child the C code reads (trees.c:308).
   */
  lemma ParentLeftRed()
    ensures var t := InsertAll(Init(), [10.0, 5.0, 15.0, 3.0, 7.0, 8.0]);
      t.Some? && IsRedBlack(t.value) && IsNode(t.value, [L, L]) && Subtree(t.value, [L, L]).key == 3.0 &&
      var t1 := Delete(t.value, [L, L], AsWritten);
      t1.Some? && !NoRedRed(t1.value) && !Balanced(t1.value) &&
      IsNode(t1.value, [L, R]) && Subtree(t1.value, [L, R]).key == 8.0 &&
      Delete(t1.value, [L, R], AsWritten).None?
  {
    BuildSixNodes();
    DeleteThree();
    DeleteEight();
    SixNodesColors();
  }

  lemma SixNodesColors()
    ensures IsRedBlack(SixNodes) && IsNode(SixNodes, [L, L]) && Subtree(SixNodes, [L, L]).key == 3.0
    ensures !NoRedRed(SixLess3) && !Balanced(SixLess3)
    ensures IsNode(SixLess3, [L, R]) && Subtree(SixLess3, [L, R]).key == 8.0
  {
    assert !NoRedRed(SixLess3.left);
    assert BlackHeight(SixLess3.left.left) != BlackHeight(SixLess3.left.right);
  }

  /** The tree tree_insert builds from 10, 5, 15, 20. */
  const FourNodes: Tree<int> :=
    Node(Black, Leaf(Black, 5.0), 10.0, 0, Node(Black, Nil, 15.0, 0, Leaf(Red, 20.0)))

  /** FourNodes after deleting 15 with the colour writes of trees.c. */
  const FourLess15: Tree<int> :=
    Node(Black, Leaf(Black, 5.0), 10.0, 0, Leaf(Red, 20.0))

  /** SixPrefix(3) with 20 hung below 15, before the fix-up. */
  const TwentyHung: Tree<int> :=
    Node(Black, Leaf(Red, 5.0), 10.0, 0, Node(Red, Nil, 15.0, 0, Leaf(Red, 20.0)))

  lemma FixupTwenty()
    ensures InsertFixup(TwentyHung, [R, R]) == FourNodes
  {
    // the uncle 5 is RED: 5 and 15 turn BLACK, 10 turns RED and then BLACK as the root
    var r := TwentyHung;
    var t1 := Node(Black, Leaf(Red, 5.0), 10.0, 0, Node(Black, Nil, 15.0, 0, Leaf(Red, 20.0)));
    assert Paint(r, [R], Black) == t1;
    assert Paint(t1, [L], Black) == FourNodes;
    assert Paint(FourNodes, [], Red) == FourNodes.(color := Red);
    assert Up([R, R]) == [R] && Up([R]) == [] && Last([R]) == R && [] + [L] == [L];
    assert ColorOf(Subtree(r, [R])) == Red && ColorOf(Subtree(r, [L])) == Red;
    assert InsertFixup(r, [R, R]) == InsertFixup(FourNodes.(color := Red), []);
  }

  lemma InsertTwenty()
    ensures Insert(SixPrefix(3), 20.0, 0) == Some(FourNodes)
  {
    var t := SixPrefix(3);
    assert DescentPath(t, 20.0) == [R, R];
    assert Up([R, R]) == [R];
    assert Replace(t, [R, R], Leaf(Red, 20.0)) == TwentyHung;
    FixupTwenty();
  }

  lemma BuildTwenty()
    ensures InsertAll(SixPrefix(3), [20.0]) == Some(FourNodes)
  {
    InsertTwenty();
    InsertAllStep(SixPrefix(3), 20.0, [], FourNodes);
  }

  lemma BuildFourNodes()
    ensures InsertAll(Init(), [10.0, 5.0, 15.0, 20.0]) == Some(FourNodes)
  {
    assert Insert(Init(), 10.0, 0) == Some(SixPrefix(1));
    InsertAllStep(Init(), 10.0, [5.0, 15.0, 20.0], SixPrefix(1));
    assert Insert(SixPrefix(1), 5.0, 0) == Some(SixPrefix(2));
    InsertAllStep(SixPrefix(1), 5.0, [15.0, 20.0], SixPrefix(2));
    assert Insert(SixPrefix(2), 15.0, 0) == Some(SixPrefix(3));
    InsertAllStep(SixPrefix(2), 15.0, [20.0], SixPrefix(3));
    BuildTwenty();
  }

  lemma DeleteFifteen()
    ensures Delete(FourNodes, [R], AsWritten) == Some(FourLess15)
  {
    assert Replace(FourNodes, [R], Leaf(Red, 20.0)) == FourLess15;
  }

  /** FourLess15 with 5 unlinked, and the same tree after fix-up case 1 at the root. */
  const FourLess5: Tree<int> := Node(Black, Nil, 10.0, 0, Leaf(Red, 20.0))
  const FourLess5Rotated: Tree<int> := Node(Black, Leaf(Red, 10.0), 20.0, 0, Nil)

  lemma UnlinkFive()
    ensures Delete(FourLess15, [L], AsWritten) == DeleteFixup(FourLess5, [L], AsWritten)
  {
    assert Spliced(FourLess15, [L]) == [L];
    assert Replace(FourLess15, [L], Nil) == FourLess5;
  }

  lemma RotateAtTen()
    ensures DeleteFixup(FourLess5, [L], AsWritten) == AtParent(FourLess5Rotated, [L], L, AsWritten)
  {
    assert Up([L]) == [] && Last([L]) == L && [] + [L] == [L];
    assert Subtree(FourLess5, []) == FourLess5;
    assert RedSibling(FourLess5, L) == FourLess5Rotated;
    assert Replace(FourLess5, [], FourLess5Rotated) == FourLess5Rotated;
  }

  lemma SentinelBesideFive()
    ensures AtParent(FourLess5Rotated, [L], L, AsWritten).None?
  {
    assert Subtree(FourLess5Rotated, [L]) == Leaf(Red, 10.0);
  }

  lemma DeleteFive()
    ensures Delete(FourLess15, [L], AsWritten).None?
  {
    UnlinkFive();
    RotateAtTen();
    SentinelBesideFive();
  }

  lemma FourNodesColors()
    ensures IsRedBlack(FourNodes) && IsNode(FourNodes, [R]) && Subtree(FourNodes, [R]).key == 15.0
    ensures !Balanced(FourLess15) && IsNode(FourLess15, [L]) && Subtree(FourLess15, [L]).key == 5.0
  {
  }

  /**
   The loop ends with only the root painted BLACK (trees.c:327), so a RED x
   that takes the place of a BLACK node stays RED: inserting 10, 5, 15, 20
   and deleting 15 gives unequal black heights, and deleting 5 next meets a
   sentinel sibling (trees.c:283).
   */
  lemma RedXStaysRed()
    ensures var t := InsertAll(Init(), [10.0, 5.0, 15.0, 20.0]);
      t.Some? && IsRedBlack(t.value) && IsNode(t.value, [R]) && Subtree(t.value, [R]).key == 15.0 &&
      var t1 := Delete(t.value, [R], AsWritten);
      t1.Some? && !Balanced(t1.value) &&
      IsNode(t1.value, [L]) && Subtree(t1.value, [L]).key == 5.0 &&
      Delete(t1.value, [L], AsWritten).None?
  {
    BuildFourNodes();
    DeleteFifteen();
    DeleteFive();
    FourNodesColors();
  }
}
