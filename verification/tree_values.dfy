/**
 The tree code of trees.c never reads a stored value: it compares keys,
 follows links and writes colours, and tree_delete copies the successor's
 value without looking at it. So replacing every value by one and the same
 value commutes with tree_insert, tree_delete and tree_search, and leaves
 the colour rules as they were. The box index stores height trees as the
 values of its side tree; these lemmas carry facts about trees of counters
 over to it.
 */
module RbValues {
  import opened Options
  import opened RbTree
  import opened RbQuery
  import opened RbInsert
  import opened RbDelete
  import opened RbColors

  /** t with every stored value replaced by v: same links, colours and keys. */
  function Valued<U, V>(t: Tree<U>, v: V): (r: Tree<V>)
    ensures |Entries(r)| == |Entries(t)|
    ensures forall i :: 0 <= i < |Entries(r)| ==> Entries(r)[i] == (Entries(t)[i].0, v)
  {
    if t.Nil? then Nil
    else
      var l, rr := Valued(t.left, v), Valued(t.right, v);
      var r := Node(t.color, l, t.key, v, rr);
      assert Entries(r) == Entries(l) + [(t.key, v)] + Entries(rr);
      assert Entries(t) == Entries(t.left) + [(t.key, t.value)] + Entries(t.right);
      r
  }

  /** Valued under an optional result. */
  function ValuedOption<U, V>(o: Option<Tree<U>>, v: V): Option<Tree<V>> {
    if o.None? then None else Some(Valued(o.value, v))
  }

  // ---------------------------------------------------------------------------
  // Paths, replacement, rotations and colour writes

  lemma {:induction false} ValuedSubtree<U, V>(t: Tree<U>, p: Path, v: V)
    ensures IsPosition(Valued(t, v), p) == IsPosition(t, p)
    ensures Subtree(Valued(t, v), p) == Valued(Subtree(t, p), v)
    decreases |p|
  {
    if p != [] && t.Node? {
      ValuedSubtree(Child(t, p[0]), p[1..], v);
    }
  }

  lemma {:induction false} ValuedReplace<U, V>(t: Tree<U>, p: Path, s: Tree<U>, v: V)
    ensures Replace(Valued(t, v), p, Valued(s, v)) == Valued(Replace(t, p, s), v)
    decreases |p|
  {
    if p != [] && t.Node? {
      ValuedReplace(Child(t, p[0]), p[1..], s, v);
    }
  }

  lemma ValuedPaint<U, V>(t: Tree<U>, p: Path, c: Color, v: V)
    requires IsPosition(t, p)
    ensures IsPosition(Valued(t, v), p)
    ensures Paint(Valued(t, v), p, c) == Valued(Paint(t, p, c), v)
  {
    ValuedSubtree(t, p, v);
    var s := Subtree(t, p);
    if s.Node? {
      ValuedReplace(t, p, s.(color := c), v);
    }
  }

  lemma ValuedRotateDown<U, V>(t: Tree<U>, p: Path, d: Dir, v: V)
    requires IsNode(t, p) && Child(Subtree(t, p), Other(d)).Node?
    ensures IsNode(Valued(t, v), p) && Child(Subtree(Valued(t, v), p), Other(d)).Node?
    ensures RotateDown(Valued(t, v), p, d) == Valued(RotateDown(t, p, d), v)
  {
    ValuedSubtree(t, p, v);
    ValuedReplace(t, p, Rot(Subtree(t, p), d), v);
  }

  // ---------------------------------------------------------------------------
  // tree_search and tree_insert

  lemma {:induction false} ValuedDoSearch<U, V>(t: Tree<U>, key: real, v: V)
    ensures DoSearch(Valued(t, v), key) == DoSearch(t, key)
  {
    if t.Node? {
      ValuedDoSearch(t.left, key, v);
      ValuedDoSearch(t.right, key, v);
    }
  }

  /** tree_search lands on the same node whatever the values. */
  lemma ValuedSearch<U, V>(t: Tree<U>, key: real, v: V)
    ensures Search(Valued(t, v), key) == Search(t, key)
  {
    ValuedDoSearch(t, key, v);
  }

  lemma {:induction false} ValuedDescent<U, V>(t: Tree<U>, key: real, v: V)
    ensures DescentPath(Valued(t, v), key) == DescentPath(t, key)
  {
    if t.Node? {
      ValuedDescent(Child(t, if key < t.key then L else R), key, v);
    }
  }

  lemma {:induction false} ValuedFixup<U, V>(t: Tree<U>, z: Path, v: V)
    requires IsNode(t, z)
    ensures IsNode(Valued(t, v), z)
    ensures InsertFixup(Valued(t, v), z) == Valued(InsertFixup(t, z), v)
    decreases |z|
  {
    ValuedSubtree(t, z, v);
    if |z| < 2 {
    } else {
      var p := Up(z);
      var g := Up(p);
      var side := Last(p);
      FixupShape(t, z);
      ValuedSubtree(t, p, v);
      if ColorOf(Subtree(t, p)) == Black {
      } else {
        ValuedSubtree(t, g + [Other(side)], v);
        if ColorOf(Subtree(t, g + [Other(side)])) == Red {
          var t1 := Paint(t, p, Black);
          RecolorKeepsShape(t, g, side);
          var t2 := Paint(t1, g + [Other(side)], Black);
          var t3 := Paint(t2, g, Red);
          ValuedPaint(t, p, Black, v);
          ValuedPaint(t1, g + [Other(side)], Black, v);
          ValuedPaint(t2, g, Red, v);
          ValuedFixup(t3, g, v);
        } else {
          var t1 := if Last(z) == Other(side) then RotateDown(t, p, side) else t;
          InnerRotationShape(t, z, t1);
          if Last(z) == Other(side) {
            ValuedRotateDown(t, p, side, v);
          }
          var t2 := Paint(t1, p, Black);
          PaintParentShape(t1, g, side, t2);
          var t3 := Paint(t2, g, Red);
          var t4 := RotateDown(t3, g, Other(side));
          ChildPosition(t4, g, side);
          ValuedPaint(t1, p, Black, v);
          ValuedPaint(t2, g, Red, v);
          ValuedRotateDown(t3, g, Other(side), v);
          ValuedFixup(t4, g + [side], v);
        }
      }
    }
  }

  /** tree_insert builds the same tree, links and colours, whatever the values. */
  lemma ValuedInsert<U, V>(t: Tree<U>, key: real, u: U, v: V)
    ensures Insert(Valued(t, v), key, v) == ValuedOption(Insert(t, key, u), v)
  {
    ValuedDescent(t, key, v);
    var p := DescentPath(t, key);
    var z := Node(Red, Nil, key, u, Nil);
    var zv: Tree<V> := Node(Red, Nil, key, v, Nil);
    assert Valued(z, v) == zv;
    InsertCases(t, key, u);
    InsertCases(Valued(t, v), key, v);
    if p == [] {
      ValuedFixup(z, [], v);
    } else {
      ValuedSubtree(t, Up(p), v);
      var y := Subtree(t, Up(p));
      if key < y.key || key > y.key {
        ValuedReplace(t, p, z, v);
        ValuedFixup(Replace(t, p, z), p, v);
      }
    }
  }

  /** The three outcomes of tree_insert, by where the descent stops. */
  lemma InsertCases<V>(t: Tree<V>, key: real, value: V)
    ensures var p, z := DescentPath(t, key), Node(Red, Nil, key, value, Nil);
      (p == [] ==> IsNode(z, []) && Insert(t, key, value) == Some(InsertFixup(z, []))) &&
      (p != [] && Subtree(t, Up(p)).key != key ==>
        IsNode(Replace(t, p, z), p) && Insert(t, key, value) == Some(InsertFixup(Replace(t, p, z), p))) &&
      (p != [] && Subtree(t, Up(p)).key == key ==> Insert(t, key, value).None?)
  {
    var p, z := DescentPath(t, key), Node(Red, Nil, key, value, Nil);
    if p != [] {
      SubtreeOfReplace(t, p, z, []);
      assert p + [] == p;
    }
  }

  // ---------------------------------------------------------------------------
  // tree_delete and tree_delete_fixup

  lemma {:induction false} ValuedLeftSpine<U, V>(s: Tree<U>, v: V)
    requires s.Node?
    ensures LeftSpine(Valued(s, v)) == LeftSpine(s)
  {
    if s.left.Node? {
      ValuedLeftSpine(s.left, v);
    }
  }

  lemma ValuedSpliced<U, V>(t: Tree<U>, n: Path, v: V)
    requires IsNode(t, n)
    ensures IsNode(Valued(t, v), n) && Spliced(Valued(t, v), n) == Spliced(t, n)
  {
    ValuedSubtree(t, n, v);
    var node := Subtree(t, n);
    if node.left.Node? && node.right.Node? {
      ChildPosition(t, n, R);
      ValuedSubtree(t, n + [R], v);
      SubtreeAppend(t, n, [R]);
      ValuedLeftSpine(Subtree(t, n + [R]), v);
    }
  }

  lemma ValuedSetEntry<U, V>(t: Tree<U>, n: Path, k: real, u: U, v: V)
    requires IsNode(t, n)
    ensures IsNode(Valued(t, v), n)
    ensures SetEntry(Valued(t, v), n, k, v) == Valued(SetEntry(t, n, k, u), v)
  {
    ValuedSubtree(t, n, v);
    ValuedReplace(t, n, Subtree(t, n).(key := k, value := u), v);
  }

  lemma ValuedRedSibling<U, V>(s: Tree<U>, d: Dir, v: V)
    requires s.Node? && Child(s, Other(d)).Node?
    ensures Valued(s, v).Node? && Child(Valued(s, v), Other(d)).Node?
    ensures RedSibling(Valued(s, v), d) == Valued(RedSibling(s, d), v)
  {
  }

  lemma ValuedBlackNephews<U, V>(s: Tree<U>, d: Dir, v: V)
    requires s.Node? && Child(s, Other(d)).Node?
    ensures Valued(s, v).Node? && Child(Valued(s, v), Other(d)).Node?
    ensures BlackNephews(Valued(s, v), d) == Valued(BlackNephews(s, d), v)
  {
  }

  lemma ValuedRedNephew<U, V>(s: Tree<U>, d: Dir, f: Fixup, v: V)
    requires s.Node? && Child(s, Other(d)).Node?
    requires ColorOf(Child(Child(s, Other(d)), d)) == Red || ColorOf(Child(Child(s, Other(d)), Other(d))) == Red
    ensures var sv := Valued(s, v);
      sv.Node? && Child(sv, Other(d)).Node? &&
      (ColorOf(Child(Child(sv, Other(d)), d)) == Red || ColorOf(Child(Child(sv, Other(d)), Other(d))) == Red)
    ensures RedNephew(Valued(s, v), d, f) == Valued(RedNephew(s, d, f), v)
  {
    var o := Other(d);
    var w := Child(s, o);
    ValuedChild(s, o, v);
    ValuedChild(w, d, v);
    ValuedChild(w, o, v);
  }

  lemma ValuedChild<U, V>(s: Tree<U>, d: Dir, v: V)
    requires s.Node?
    ensures Valued(s, v).Node? && Child(Valued(s, v), d) == Valued(Child(s, d), v)
    ensures ColorOf(Valued(Child(s, d), v)) == ColorOf(Child(s, d))
  {
  }

  lemma ValuedFinish<U, V>(t: Tree<U>, x: Path, f: Fixup, v: V)
    requires IsPosition(t, x)
    ensures IsPosition(Valued(t, v), x)
    ensures Finish(Valued(t, v), x, f) == Valued(Finish(t, x, f), v)
  {
    ValuedPaint(t, x, Black, v);
  }

  lemma {:induction false} ValuedDeleteFixup<U, V>(t: Tree<U>, x: Path, f: Fixup, v: V)
    requires IsPosition(t, x)
    ensures IsPosition(Valued(t, v), x)
    ensures DeleteFixup(Valued(t, v), x, f) == ValuedOption(DeleteFixup(t, x, f), v)
    decreases 2 * |x| + Blackness(Subtree(t, x)), 1
  {
    ValuedSubtree(t, x, v);
    if x == [] || ColorOf(Subtree(t, x)) == Red {
      ValuedFinish(t, x, f, v);
    } else {
      var p, d := Up(x), Last(x);
      ParentNode(t, x);
      ValuedSubtree(t, p, v);
      var s := Subtree(t, p);
      var w := Child(s, Other(d));
      if w.Nil? {
      } else if w.color == Red {
        var s1 := RedSibling(s, d);
        var t1 := Replace(t, p, s1);
        SplitAt(t, p, s);
        SplitAt(t, p, s1);
        SubtreeOfReplace(t, p, s1, [d]);
        ValuedRedSibling(s, d, v);
        ValuedReplace(t, p, s1, v);
        ValuedAtParent(t1, p + [d], d, f, v);
      } else {
        ValuedAtParent(t, p, d, f, v);
      }
    }
  }

  lemma {:induction false} ValuedAtParent<U, V>(t: Tree<U>, p: Path, d: Dir, f: Fixup, v: V)
    requires IsNode(t, p)
    ensures IsNode(Valued(t, v), p)
    ensures AtParent(Valued(t, v), p, d, f) == ValuedOption(AtParent(t, p, d, f), v)
    decreases 2 * |p| + Blackness(Subtree(t, p)) + 1, 0
  {
    ValuedSubtree(t, p, v);
    var s := Subtree(t, p);
    var w := Child(s, Other(d));
    SplitAt(t, p, s);
    ValuedChild(s, Other(d), v);
    if w.Nil? {
    } else if ColorOf(w.left) == Black && ColorOf(w.right) == Black {
      ValuedChild(w, L, v);
      ValuedChild(w, R, v);
      var s2 := BlackNephews(s, d);
      SplitAt(t, p, s2);
      SubtreeOfReplace(t, p, s2, []);
      assert p + [] == p;
      ValuedBlackNephews(s, d, v);
      ValuedReplace(t, p, s2, v);
      ValuedDeleteFixup(Replace(t, p, s2), p, f, v);
    } else {
      ValuedLastRound(t, p, d, f, v);
    }
  }

  /** A round that ends in cases 3 and 4. */
  lemma ValuedLastRound<U, V>(t: Tree<U>, p: Path, d: Dir, f: Fixup, v: V)
    requires IsNode(t, p)
    requires var w := Child(Subtree(t, p), Other(d)); w.Node? && (ColorOf(w.left) == Red || ColorOf(w.right) == Red)
    ensures IsNode(Valued(t, v), p)
    ensures AtParent(Valued(t, v), p, d, f) == ValuedOption(AtParent(t, p, d, f), v)
  {
    ValuedSubtree(t, p, v);
    var s := Subtree(t, p);
    var w := Child(s, Other(d));
    ValuedChild(s, Other(d), v);
    ValuedChild(w, L, v);
    ValuedChild(w, R, v);
    LastRound(t, p, d, f);
    LastRound(Valued(t, v), p, d, f);
    var s4 := RedNephew(s, d, f);
    var t4 := Replace(t, p, s4);
    ValuedRedNephew(s, d, f, v);
    ValuedReplace(t, p, s4, v);
    if f == Textbook || p == [] {
      ValuedFinish(t4, [], f, v);
    } else {
      ValuedPaint(t4, Up(p), Black, v);
      ValuedFinish(Paint(t4, Up(p), Black), [], f, v);
    }
  }

  /** What a round ending in cases 3 and 4 returns. */
  lemma LastRound<V>(t: Tree<V>, p: Path, d: Dir, f: Fixup)
    requires IsNode(t, p)
    requires var w := Child(Subtree(t, p), Other(d)); w.Node? && (ColorOf(w.left) == Red || ColorOf(w.right) == Red)
    ensures var s := Subtree(t, p);
      ColorOf(Child(Child(s, Other(d)), d)) == Red || ColorOf(Child(Child(s, Other(d)), Other(d))) == Red
    ensures var t4 := Replace(t, p, RedNephew(Subtree(t, p), d, f));
      (f == Textbook || p == [] ==> AtParent(t, p, d, f) == Some(Finish(t4, [], f))) &&
      (f == AsWritten && p != [] ==>
        IsPosition(t4, Up(p)) && AtParent(t, p, d, f) == Some(Finish(Paint(t4, Up(p), Black), [], f)))
  {
    var s := Subtree(t, p);
    var s4 := RedNephew(s, d, f);
    SplitAt(t, p, s4);
    if f == AsWritten && p != [] {
      assert Up(p) + [Last(p)] == p;
      ReplaceKeepsPrefix(t, Up(p), [Last(p)], s4);
    }
  }

  /** tree_delete makes the same links and colour writes, and meets the same sentinels, whatever the values. */
  lemma ValuedDelete<U, V>(t: Tree<U>, n: Path, f: Fixup, v: V)
    requires IsNode(t, n)
    ensures IsNode(Valued(t, v), n)
    ensures Delete(Valued(t, v), n, f) == ValuedOption(Delete(t, n, f), v)
  {
    ValuedSpliced(t, n, v);
    var y := Spliced(t, n);
    ValuedSubtree(t, y, v);
    var ys := Subtree(t, y);
    var x := if ys.left.Node? then ys.left else ys.right;
    var t1 := Replace(t, y, x);
    ValuedReplace(t, y, x, v);
    SpliceRemoves(t, y);
    SubtreeOfReplace(t, y, x, []);
    assert y + [] == y;
    if y != n {
      CopyRemoves(t, n);
      ValuedSetEntry(t1, n, ys.key, ys.value, v);
    }
    var t2 := if y != n then SetEntry(t1, n, ys.key, ys.value) else t1;
    if ys.color == Black {
      ValuedDeleteFixup(t2, y, f, v);
    }
  }

  // ---------------------------------------------------------------------------
  // The colour rules

  /** The colour rules read only links and colours. */
  lemma {:induction false} ValuedColors<U, V>(t: Tree<U>, v: V)
    ensures NoRedRed(Valued(t, v)) == NoRedRed(t)
    ensures BlackHeight(Valued(t, v)) == BlackHeight(t)
    ensures Balanced(Valued(t, v)) == Balanced(t)
    ensures IsRedBlack(Valued(t, v)) == IsRedBlack(t)
  {
    if t.Node? {
      ValuedColors(t.left, v);
      ValuedColors(t.right, v);
    }
  }
}
