/**
 tree_insert and tree_insert_fixup of trees.c.
 */
module RbInsert {
  import opened Options
  import opened Sequences
  import opened RbTree

  /**
   The sentinel slot where the descent of tree_insert stops: it goes left
   when the new key is below the node's key and right otherwise.
   */
  function DescentPath<V>(t: Tree<V>, key: real): (p: Path)
    ensures IsPosition(t, p) && Subtree(t, p).Nil?
    ensures p != [] ==> IsNode(t, Up(p)) && p == Up(p) + [Last(p)]
    ensures p != [] ==> (Last(p) == L <==> key < Subtree(t, Up(p)).key)
  {
    if t.Nil? then []
    else
      var d := if key < t.key then L else R;
      var q := DescentPath(Child(t, d), key);
      DescentStep(t, d, q);
      [d] + q
  }

  lemma DescentStep<V>(t: Tree<V>, d: Dir, q: Path)
    requires t.Node? && IsPosition(Child(t, d), q)
    ensures IsPosition(t, [d] + q) && Subtree(t, [d] + q) == Subtree(Child(t, d), q)
    ensures q != [] ==> Up([d] + q) == [d] + Up(q) && Last([d] + q) == Last(q)
    ensures q != [] && IsNode(Child(t, d), Up(q)) ==>
      IsNode(t, Up([d] + q)) && Subtree(t, Up([d] + q)) == Subtree(Child(t, d), Up(q))
  {
    assert ([d] + q)[0] == d && ([d] + q)[1..] == q;
    if q != [] {
      assert Up([d] + q) == [d] + Up(q);
      var u := [d] + Up(q);
      assert u[0] == d && u[1..] == Up(q);
    }
  }

  /**
   tree_insert: descend to a sentinel slot and hang a new RED node there,
   unless the key equals the key of the last node passed (the only duplicate
   the C code detects), then run the fix-up. None is the -1 result; the tree
   is unchanged then.
   */
  function Insert<V>(t: Tree<V>, key: real, value: V): (r: Option<Tree<V>>)
    ensures r.None? ==> key in Keys(t)
    ensures r.Some? ==> Keys(r.value) == Keys(t) + {key}
  {
    var z := Node(Red, Nil, key, value, Nil);
    var p := DescentPath(t, key);
    HangKeys(t, p, z);
    if p == [] then
      Some(InsertFixup(z, []))
    else
      var y := Subtree(t, Up(p));
      if key < y.key || key > y.key then
        SubtreeOfReplace(t, p, z, []);
        assert p + [] == p;
        Some(InsertFixup(Replace(t, p, z), p))
      else
        EntryAtRank(t, Up(p));
        assert Entries(t)[Rank(t, Up(p))].0 in Keys(t);
        None
  }

  /** Hanging a single node in a sentinel slot adds exactly its key. */
  lemma HangKeys<V>(t: Tree<V>, p: Path, z: Tree<V>)
    requires IsPosition(t, p) && Subtree(t, p).Nil?
    requires z.Node? && z.left.Nil? && z.right.Nil?
    ensures Keys(Replace(t, p, z)) == Keys(t) + {z.key}
  {
    SplitAt(t, p, z);
    var b, a := Before(t, p), After(t, p);
    var m := [(z.key, z.value)];
    assert Entries(z) == m;
    assert Entries(t) == b + a;
    KeysOfConcat(b + m, a);
    KeysOfConcat(b, m);
    KeysOfConcat(b, a);
    assert m[0].0 in KeysOf(m);
    assert KeysOf(m) == {z.key};
  }

  /**
   tree_insert_fixup, starting from the RED node at z. The mirrored halves of
   the C loop are one case split on the side of the parent. The loop stops
   when z is the root or z's parent is BLACK; it also stops when z's parent
   is the root (the grandparent would be the sentinel, which the C code
   cannot handle and which a BLACK root rules out).
   */
  function InsertFixup<V>(t: Tree<V>, z: Path): (r: Tree<V>)
    requires IsNode(t, z)
    ensures Entries(r) == Entries(t)
    ensures ColorOf(r) == Black
    decreases |z|
  {
    if |z| < 2 || ColorOf(Subtree(t, Up(z))) == Black then BlackenRoot(t)
    else
      var p := Up(z);
      var g := Up(p);
      var side := Last(p);
      FixupShape(t, z);
      if ColorOf(Subtree(t, g + [Other(side)])) == Red then
        // red uncle: recolour and continue from the grandparent
        var t1 := Paint(t, p, Black);
        RecolorKeepsShape(t, g, side);
        var t2 := Paint(t1, g + [Other(side)], Black);
        var t3 := Paint(t2, g, Red);
        InsertFixup(t3, g)
      else
        // black uncle: an inner z is first rotated to the outer position
        var t1 := if Last(z) == Other(side) then RotateDown(t, p, side) else t;
        InnerRotationShape(t, z, t1);
        var t2 := Paint(t1, p, Black);
        PaintParentShape(t1, g, side, t2);
        var t3 := Paint(t2, g, Red);
        var t4 := RotateDown(t3, g, Other(side));
        ChildPosition(t4, g, side);
        InsertFixup(t4, g + [side])
  }

  /** The grandparent, parent and uncle of z are positions; z is a child of its parent. */
  lemma FixupShape<V>(t: Tree<V>, z: Path)
    requires IsNode(t, z) && |z| >= 2
    ensures IsNode(t, Up(z)) && IsNode(t, Up(Up(z)))
    ensures Up(z) == Up(Up(z)) + [Last(Up(z))] && z == Up(z) + [Last(z)]
    ensures IsPosition(t, Up(Up(z)) + [Other(Last(Up(z)))])
    ensures Subtree(t, z) == Child(Subtree(t, Up(z)), Last(z))
    ensures Subtree(t, Up(z)) == Child(Subtree(t, Up(Up(z))), Last(Up(z)))
  {
    var p, g := Up(z), Up(Up(z));
    ParentNode(t, z);
    ParentNode(t, p);
    assert p == g + [Last(p)];
    assert z == p + [Last(z)];
    ChildPosition(t, g, Other(Last(p)));
  }

  /** Painting the parent keeps the grandparent a node and the uncle a position. */
  lemma RecolorKeepsShape<V>(t: Tree<V>, g: Path, side: Dir)
    requires IsNode(t, g) && IsNode(t, g + [side]) && IsPosition(t, g + [Other(side)])
    ensures var t1 := Paint(t, g + [side], Black);
      IsNode(t1, g) && IsPosition(t1, g + [Other(side)]) &&
      IsNode(Paint(t1, g + [Other(side)], Black), g)
  {
    var p, u := g + [side], g + [Other(side)];
    var t1 := Paint(t, p, Black);
    var s1 := Subtree(t, p).(color := Black);
    ChildPosition(t, g, side);
    ChildPosition(t, g, Other(side));
    ReplaceBelow(t, g, [side], s1);
    ReplaceAppend(t, g, [side], s1);
    SubtreeOfReplace(t, g, Replace(Subtree(t, g), [side], s1), []);
    assert g + [] == g;
    ChildPosition(t1, g, Other(side));
    var t2 := Paint(t1, u, Black);
    if Subtree(t1, u).Node? {
      ChildPosition(t1, g, Other(side));
      ReplaceBelow(t1, g, [Other(side)], Subtree(t1, u).(color := Black));
    }
  }

  /** After the optional inner rotation the parent has an outer child on `side`. */
  lemma InnerRotationShape<V>(t: Tree<V>, z: Path, t1: Tree<V>)
    requires IsNode(t, z) && |z| >= 2
    requires var p := Up(z); var side := Last(p);
      IsNode(t, p) && IsNode(t, Up(p)) && p == Up(p) + [side] && z == p + [Last(z)] &&
      Subtree(t, z) == Child(Subtree(t, p), Last(z)) &&
      t1 == (if Last(z) == Other(side) then RotateDown(t, p, side) else t)
    ensures var p := Up(z); var side := Last(p);
      IsNode(t1, Up(p)) && IsNode(t1, p) && Child(Subtree(t1, p), side).Node? &&
      Subtree(t1, Up(p) + [side]) == Subtree(t1, p)
  {
    var p, g := Up(z), Up(Up(z));
    var side := Last(p);
    if Last(z) == Other(side) {
      ReplaceBelow(t, g, [side], Rot(Subtree(t, p), side));
    } else {
      assert Last(z) == side;
    }
  }

  lemma PaintParentShape<V>(t1: Tree<V>, g: Path, side: Dir, t2: Tree<V>)
    requires IsNode(t1, g) && IsNode(t1, g + [side]) && Child(Subtree(t1, g + [side]), side).Node?
    requires t2 == Paint(t1, g + [side], Black)
    ensures IsNode(t2, g) && Child(Subtree(t2, g), side).Node?
    ensures Child(Child(Subtree(t2, g), side), side).Node?
  {
    var p := g + [side];
    var s1 := Subtree(t1, p).(color := Black);
    ChildPosition(t1, g, side);
    ReplaceBelow(t1, g, [side], s1);
    ChildPosition(t2, g, side);
  }

  /** Hanging a leaf at the descent slot of a fresh key inserts it at its sorted place. */
  lemma {:induction false} DescentInserts<V>(t: Tree<V>, key: real, z: Tree<V>)
    requires Ordered(t) && key !in Keys(t)
    requires z.Node? && z.left.Nil? && z.right.Nil? && z.key == key
    ensures Entries(Replace(t, DescentPath(t, key), z)) == InsertSorted(Entries(t), key, z.value)
  {
    if t.Node? {
      KeysNode(t);
      OrderedNode(t);
      var d := if key < t.key then L else R;
      var q := DescentPath(Child(t, d), key);
      assert DescentPath(t, key) == [d] + q;
      assert ([d] + q)[0] == d && ([d] + q)[1..] == q;
      assert Replace(t, [d] + q, z) == WithChild(t, d, Replace(Child(t, d), q, z));
      DescentInserts(Child(t, d), key, z);
      if d == L {
        InsertLeftOfNode(t, key, z.value);
      } else {
        InsertRightOfNode(t, key, z.value);
      }
    }
  }

  lemma InsertLeftOfNode<V>(t: Tree<V>, key: real, v: V)
    requires t.Node? && Ordered(t) && key < t.key
    ensures InsertSorted(Entries(t), key, v) == InsertSorted(Entries(t.left), key, v) + [(t.key, t.value)] + Entries(t.right)
  {
    var el, er := Entries(t.left), Entries(t.right);
    var m: seq<(real, V)> := [(t.key, t.value)] + er;
    AboveNodeKey(t, key);
    assert Entries(t) == el + m;
    InsertSortedLeft(el, m, key, v);
  }

  lemma AboveNodeKey<V>(t: Tree<V>, key: real)
    requires t.Node? && Ordered(t) && key < t.key
    ensures forall j :: 0 <= j < |[(t.key, t.value)] + Entries(t.right)| ==> key < ([(t.key, t.value)] + Entries(t.right))[j].0
  {
    OrderedNode(t);
    var er := Entries(t.right);
    var m: seq<(real, V)> := [(t.key, t.value)] + er;
    forall j | 0 <= j < |m| ensures key < m[j].0 {
      if j > 0 {
        assert m[j] == er[j - 1];
        assert er[j - 1].0 in Keys(t.right);
      }
    }
  }

  lemma InsertRightOfNode<V>(t: Tree<V>, key: real, v: V)
    requires t.Node? && Ordered(t) && t.key < key
    ensures InsertSorted(Entries(t), key, v) == Entries(t.left) + [(t.key, t.value)] + InsertSorted(Entries(t.right), key, v)
  {
    OrderedNode(t);
    var n: seq<(real, V)> := [(t.key, t.value)];
    var el, er := Entries(t.left), Entries(t.right);
    forall j | 0 <= j < |el + n| ensures !(key < (el + n)[j].0) {
      if j < |el| {
        assert (el + n)[j] == el[j];
        assert el[j].0 in Keys(t.left);
      }
    }
    InsertSortedRight(el + n, er, key, v);
  }

  /**
   Inserting a key that is not in an ordered tree succeeds; the new in-order
   sequence is the old one with (key, value) at its sorted place, so the tree
   stays ordered and gains exactly that key.
   */
  lemma InsertFresh<V>(t: Tree<V>, key: real, value: V)
    requires Ordered(t) && key !in Keys(t)
    ensures Insert(t, key, value).Some?
    ensures Entries(Insert(t, key, value).value) == InsertSorted(Entries(t), key, value)
    ensures Ordered(Insert(t, key, value).value)
    ensures Keys(Insert(t, key, value).value) == Keys(t) + {key}
    ensures ColorOf(Insert(t, key, value).value) == Black
  {
    var z := Node(Red, Nil, key, value, Nil);
    var p := DescentPath(t, key);
    if p != [] {
      EntryAtRank(t, Up(p));
      assert Entries(t)[Rank(t, Up(p))].0 in Keys(t);
    }
    DescentInserts(t, key, z);
    InsertSortedIncreasing(Entries(t), key, value);
  }

  /**
   The duplicate check only compares with the last node of the descent: a key
   equal to an ancestor higher up is inserted a second time.
   */
  const FiveSeven: Tree<int> := Node(Black, Nil, 5.0, 0, Node(Red, Nil, 7.0, 0, Nil))

  /** FiveSeven with a second 5 hung to the left of 7, before the fix-up. */
  const FiveSevenFive: Tree<int> := Node(Black, Nil, 5.0, 0, Node(Red, Node(Red, Nil, 5.0, 1, Nil), 7.0, 0, Nil))

  lemma DuplicateHung()
    ensures Insert(FiveSeven, 5.0, 1) == Some(InsertFixup(FiveSevenFive, [R, L]))
  {
    assert DescentPath(FiveSeven, 5.0) == [R, L];
    assert Up([R, L]) == [R];
    assert Replace(FiveSeven, [R, L], Node(Red, Nil, 5.0, 1, Nil)) == FiveSevenFive;
  }

  /** FiveSevenFive after the fix-up: the second 5 ends at the root. */
  const FiveFiveSeven: Tree<int> := Node(Black, Node(Red, Nil, 5.0, 0, Nil), 5.0, 1, Node(Red, Nil, 7.0, 0, Nil))

  lemma FixupDuplicate()
    ensures InsertFixup(FiveSevenFive, [R, L]) == FiveFiveSeven
  {
    // the uncle is the sentinel and z is an inner child: rotate at 7, then at the root
    var t := FiveSevenFive;
    assert Up([R, L]) == [R] && Up([R]) == [] && Last([R, L]) == L && Last([R]) == R && [] + [L] == [L];
    assert ColorOf(Subtree(t, [R])) == Red && ColorOf(Subtree(t, [L])) == Black;
    var t1 := Node(Black, Nil, 5.0, 0, Node(Red, Nil, 5.0, 1, Node(Red, Nil, 7.0, 0, Nil)));
    assert RotateDown(t, [R], R) == t1;
    var t2 := Node(Black, Nil, 5.0, 0, Node(Black, Nil, 5.0, 1, Node(Red, Nil, 7.0, 0, Nil)));
    assert Paint(t1, [R], Black) == t2;
    var t3 := t2.(color := Red);
    assert Paint(t2, [], Red) == t3;
    assert RotateDown(t3, [], L) == FiveFiveSeven;
    assert [] + [R] == [R];
    assert InsertFixup(t, [R, L]) == InsertFixup(FiveFiveSeven, [R]);
  }

  lemma DuplicateInsert()
    ensures Insert(FiveSeven, 5.0, 1) == Some(FiveFiveSeven)
  {
    DuplicateHung();
    FixupDuplicate();
  }

  lemma DuplicateUnordered()
    ensures !Ordered(FiveFiveSeven)
  {
    var e := Entries(FiveFiveSeven);
    assert e == [(5.0, 0)] + [(5.0, 1)] + [(7.0, 0)];
    assert e[0].0 == e[1].0;
  }

  lemma InsertMissesEarlierDuplicate()
    ensures var t := Node(Black, Nil, 5.0, 0, Node(Red, Nil, 7.0, 0, Nil));
      Insert(t, 5.0, 1).Some? && !Ordered(Insert(t, 5.0, 1).value)
  {
    DuplicateInsert();
    DuplicateUnordered();
  }
}
