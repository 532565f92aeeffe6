/**
 The red-black colour rules and their preservation by tree_insert.

 A tree is red-black when its root is BLACK, no RED node has a RED child and
 every path from a node down to the sentinel passes the same number of BLACK
 nodes. The fix-up of tree_insert works on the subtree at the grandparent of
 z only, so the proofs below split a tree at a path: what hangs above the
 path is left alone, what lies below it is rebuilt locally.
 */
module RbColors {
  import opened RbTree
  import opened RbInsert

  /** No RED node has a RED child (the sentinel counts as BLACK). */
  predicate NoRedRed<V>(t: Tree<V>) {
    t.Nil? ||
    (NoRedRed(t.left) && NoRedRed(t.right) &&
     (t.color == Red ==> ColorOf(t.left) == Black && ColorOf(t.right) == Black))
  }

  /** BLACK nodes on the leftmost path from t down to the sentinel. */
  function BlackHeight<V>(t: Tree<V>): nat {
    if t.Nil? then 0 else BlackHeight(t.left) + (if t.color == Black then 1 else 0)
  }

  /** Both children of every node have the same black height. */
  predicate Balanced<V>(t: Tree<V>) {
    t.Nil? ||
    (Balanced(t.left) && Balanced(t.right) && BlackHeight(t.left) == BlackHeight(t.right))
  }

  predicate IsRedBlack<V>(t: Tree<V>) {
    ColorOf(t) == Black && NoRedRed(t) && Balanced(t)
  }

  /** BLACK nodes met on the way from the root along p. */
  function BlacksAlong<V>(t: Tree<V>, p: Path): nat
    decreases |p|
  {
    if p == [] || t.Nil? then 0
    else (if t.color == Black then 1 else 0) + BlacksAlong(Child(t, p[0]), p[1..])
  }

  /** In a balanced tree every path down to a sentinel slot meets BlackHeight BLACK nodes. */
  lemma {:induction false} BalancedPaths<V>(t: Tree<V>, p: Path)
    requires Balanced(t) && IsPosition(t, p) && Subtree(t, p).Nil?
    ensures BlacksAlong(t, p) == BlackHeight(t)
    decreases |p|
  {
    if p != [] && t.Node? {
      BalancedPaths(Child(t, p[0]), p[1..]);
    }
  }

  // ---------------------------------------------------------------------------
  // Splitting at a path

  lemma {:induction false} NoRedRedSub<V>(t: Tree<V>, p: Path)
    requires NoRedRed(t)
    ensures NoRedRed(Subtree(t, p))
    decreases |p|
  {
    if p != [] && t.Node? {
      NoRedRedSub(Child(t, p[0]), p[1..]);
    }
  }

  lemma {:induction false} BalancedSub<V>(t: Tree<V>, p: Path)
    requires Balanced(t)
    ensures Balanced(Subtree(t, p))
    decreases |p|
  {
    if p != [] && t.Node? {
      BalancedSub(Child(t, p[0]), p[1..]);
    }
  }

  /**
   Replacing a subtree by one without RED-RED pairs keeps the whole tree free
   of them, unless a RED replacement lands under a RED parent where a BLACK
   subtree was.
   */
  lemma {:induction false} NoRedRedReplace<V>(t: Tree<V>, p: Path, s: Tree<V>, s': Tree<V>)
    requires IsPosition(t, p) && NoRedRed(Replace(t, p, s)) && NoRedRed(s')
    requires ColorOf(s') == Red && ColorOf(s) == Black ==> p == [] || ColorOf(Subtree(t, Up(p))) == Black
    ensures NoRedRed(Replace(t, p, s'))
    decreases |p|
  {
    if p != [] {
      var d, q := p[0], p[1..];
      var c := Child(t, d);
      if q != [] {
        assert Up(p) == [d] + Up(q);
        var u := Up(p);
        assert u[0] == d && u[1..] == Up(q);
        RootColorReplace(c, q, s);
        RootColorReplace(c, q, s');
      }
      NoRedRedReplace(c, q, s, s');
    }
  }

  /** Replacing a subtree by a balanced one of the same black height keeps the tree balanced. */
  lemma {:induction false} BalancedReplace<V>(t: Tree<V>, p: Path, s: Tree<V>)
    requires IsPosition(t, p) && Balanced(t) && Balanced(s)
    requires BlackHeight(s) == BlackHeight(Subtree(t, p))
    ensures Balanced(Replace(t, p, s)) && BlackHeight(Replace(t, p, s)) == BlackHeight(t)
    decreases |p|
  {
    if p != [] {
      BalancedReplace(Child(t, p[0]), p[1..], s);
    }
  }

  lemma {:induction false} ReplaceTwice<V>(t: Tree<V>, p: Path, a: Tree<V>, b: Tree<V>)
    requires IsPosition(t, p)
    ensures Replace(Replace(t, p, a), p, b) == Replace(t, p, b)
    decreases |p|
  {
    if p != [] {
      ReplaceTwice(Child(t, p[0]), p[1..], a, b);
    }
  }

  lemma {:induction false} ReplaceSame<V>(t: Tree<V>, p: Path)
    requires IsPosition(t, p)
    ensures Replace(t, p, Subtree(t, p)) == t
    decreases |p|
  {
    if p != [] {
      ReplaceSame(Child(t, p[0]), p[1..]);
    }
  }

  /** The subtree at a replaced position is the replacement. */
  lemma AtReplaced<V>(t: Tree<V>, g: Path, x: Tree<V>)
    requires IsPosition(t, g)
    ensures IsPosition(Replace(t, g, x), g) && Subtree(Replace(t, g, x), g) == x
  {
    SubtreeOfReplace(t, g, x, []);
    assert g + [] == g;
  }

  /** A colour write below g is a replacement of the subtree at g. */
  lemma PaintBelow<V>(t: Tree<V>, g: Path, q: Path, c: Color)
    requires IsNode(t, g) && IsPosition(Subtree(t, g), q)
    ensures IsPosition(t, g + q)
    ensures Paint(t, g + q, c) == Replace(t, g, Paint(Subtree(t, g), q, c))
  {
    SubtreeAppend(t, g, q);
    var s := Subtree(t, g);
    if Subtree(s, q).Nil? {
      ReplaceSame(t, g);
    } else {
      ReplaceAppend(t, g, q, Subtree(s, q).(color := c));
    }
  }

  /** A rotation below g is a replacement of the subtree at g. */
  lemma RotateBelow<V>(t: Tree<V>, g: Path, q: Path, d: Dir)
    requires IsNode(t, g) && IsNode(Subtree(t, g), q) && Child(Subtree(Subtree(t, g), q), Other(d)).Node?
    ensures IsNode(t, g + q) && Child(Subtree(t, g + q), Other(d)).Node?
    ensures RotateDown(t, g + q, d) == Replace(t, g, RotateDown(Subtree(t, g), q, d))
  {
    SubtreeAppend(t, g, q);
    ReplaceAppend(t, g, q, Rot(Subtree(t, g + q), d));
  }

  // ---------------------------------------------------------------------------
  // Rewriting keys and values leaves the colours alone

  /** Same shape and the same colour at every node; keys and values may differ. */
  predicate SameColors<V>(a: Tree<V>, b: Tree<V>) {
    (a.Nil? && b.Nil?) ||
    (a.Node? && b.Node? && a.color == b.color && SameColors(a.left, b.left) && SameColors(a.right, b.right))
  }

  lemma {:induction false} ColorsRefl<V>(a: Tree<V>)
    ensures SameColors(a, a)
  {
    if a.Node? {
      ColorsRefl(a.left);
      ColorsRefl(a.right);
    }
  }

  /** The colour rules see only the colours. */
  lemma {:induction false} ColorsRules<V>(a: Tree<V>, b: Tree<V>)
    requires SameColors(a, b)
    ensures NoRedRed(a) == NoRedRed(b) && Balanced(a) == Balanced(b)
    ensures BlackHeight(a) == BlackHeight(b) && ColorOf(a) == ColorOf(b)
  {
    if a.Node? {
      ColorsRules(a.left, b.left);
      ColorsRules(a.right, b.right);
    }
  }

  lemma {:induction false} ColorsAt<V>(a: Tree<V>, b: Tree<V>, q: Path)
    requires SameColors(a, b)
    ensures IsPosition(a, q) == IsPosition(b, q) && SameColors(Subtree(a, q), Subtree(b, q))
    decreases |q|
  {
    if q != [] && a.Node? {
      ColorsAt(Child(a, q[0]), Child(b, q[0]), q[1..]);
    }
  }

  lemma {:induction false} ColorsReplace<V>(a: Tree<V>, b: Tree<V>, q: Path, s1: Tree<V>, s2: Tree<V>)
    requires SameColors(a, b) && SameColors(s1, s2)
    ensures SameColors(Replace(a, q, s1), Replace(b, q, s2))
    decreases |q|
  {
    if q != [] && a.Node? {
      ColorsReplace(Child(a, q[0]), Child(b, q[0]), q[1..], s1, s2);
    }
  }

  /** Overwriting a node's key and value (tree_delete's copy of the successor) changes no colour. */
  lemma SetEntryColors<V>(t: Tree<V>, p: Path, k: real, v: V)
    requires IsNode(t, p)
    ensures SameColors(t, SetEntry(t, p, k, v))
  {
    var s := Subtree(t, p);
    ColorsRefl(t);
    ColorsRefl(s.left);
    ColorsRefl(s.right);
    ColorsReplace(t, t, p, s, s.(key := k, value := v));
    ReplaceSame(t, p);
  }

  /** Writing a node's value (a counter or an inner tree of the box index) keeps a red-black tree red-black. */
  lemma SetValueRedBlack<V>(t: Tree<V>, p: Path, v: V)
    requires IsNode(t, p) && IsRedBlack(t)
    ensures IsRedBlack(SetValue(t, p, v))
  {
    SetEntryColors(t, p, Subtree(t, p).key, v);
    ColorsRules(t, SetValue(t, p, v));
  }

  // ---------------------------------------------------------------------------
  // The two rounds of tree_insert_fixup, on the subtree at the grandparent

  /** RED uncle: parent and uncle become BLACK, the grandparent RED. */
  function Flip<V>(s: Tree<V>): Tree<V>
    requires s.Node?
  {
    Node(Red, Recolor(s.left, Black), s.key, s.value, Recolor(s.right, Black))
  }

  /**
   BLACK uncle: an inner z is rotated to the outer position, the parent is
   painted BLACK and the grandparent RED, and the grandparent is rotated
   down away from the parent.
   */
  function Restructure<V>(s: Tree<V>, side: Dir, dz: Dir): Tree<V>
    requires s.Node? && Child(s, side).Node? && Child(Child(s, side), dz).Node?
  {
    var p := Child(s, side);
    var p1 := if dz == Other(side) then Rot(p, side) else p;
    Rot(WithChild(s, side, p1.(color := Black)).(color := Red), Other(side))
  }

  lemma PaintChild<V>(s: Tree<V>, d: Dir, c: Color)
    requires s.Node?
    ensures IsPosition(s, [d]) && Subtree(s, [d]) == Child(s, d)
    ensures Paint(s, [d], c) == WithChild(s, d, Recolor(Child(s, d), c))
  {
    assert [d][0] == d && [d][1..] == [];
    var x := Child(s, d);
    if x.Node? {
      assert Replace(s, [d], x.(color := c)) == WithChild(s, d, Replace(x, [], x.(color := c)));
    } else {
      assert WithChild(s, d, x) == s;
    }
  }

  lemma RotateChild<V>(s: Tree<V>, d: Dir, e: Dir)
    requires s.Node? && Child(s, d).Node? && Child(Child(s, d), Other(e)).Node?
    ensures IsNode(s, [d]) && Subtree(s, [d]) == Child(s, d)
    ensures RotateDown(s, [d], e) == WithChild(s, d, Rot(Child(s, d), e))
  {
    assert [d][0] == d && [d][1..] == [];
    var x := Child(s, d);
    assert Replace(s, [d], Rot(x, e)) == WithChild(s, d, Replace(x, [], Rot(x, e)));
  }

  /** The three colour writes of the RED-uncle case rebuild the grandparent's subtree as Flip. */
  lemma ChainFlip<V>(t: Tree<V>, g: Path, side: Dir, t1: Tree<V>, t2: Tree<V>, t3: Tree<V>)
    requires IsNode(t, g) && Child(Subtree(t, g), side).Node?
    requires IsPosition(t, g + [side]) && t1 == Paint(t, g + [side], Black)
    requires IsPosition(t1, g + [Other(side)]) && t2 == Paint(t1, g + [Other(side)], Black)
    requires IsPosition(t2, g) && t3 == Paint(t2, g, Red)
    ensures t3 == Replace(t, g, Flip(Subtree(t, g)))
  {
    var s := Subtree(t, g);
    PaintBelow(t, g, [side], Black);
    PaintChild(s, side, Black);
    var s1 := WithChild(s, side, Recolor(Child(s, side), Black));
    AtReplaced(t, g, s1);
    PaintBelow(t1, g, [Other(side)], Black);
    PaintChild(s1, Other(side), Black);
    var s2 := WithChild(s1, Other(side), Recolor(Child(s1, Other(side)), Black));
    ReplaceTwice(t, g, s1, s2);
    AtReplaced(t, g, s2);
    PaintBelow(t2, g, [], Red);
    assert g + [] == g;
    ReplaceTwice(t, g, s2, s2.(color := Red));
    assert s2.(color := Red) == Flip(s);
  }

  /** The writes and rotations of the BLACK-uncle case rebuild the grandparent's subtree as Restructure. */
  lemma ChainRestructure<V>(t: Tree<V>, g: Path, side: Dir, dz: Dir, t1: Tree<V>, t2: Tree<V>, t3: Tree<V>, t4: Tree<V>)
    requires IsNode(t, g) && Child(Subtree(t, g), side).Node? && Child(Child(Subtree(t, g), side), dz).Node?
    requires IsNode(t, g + [side]) && Subtree(t, g + [side]) == Child(Subtree(t, g), side)
    requires t1 == if dz == Other(side) then RotateDown(t, g + [side], side) else t
    requires IsPosition(t1, g + [side]) && t2 == Paint(t1, g + [side], Black)
    requires IsPosition(t2, g) && t3 == Paint(t2, g, Red)
    requires IsNode(t3, g) && Child(Subtree(t3, g), side).Node? && t4 == RotateDown(t3, g, Other(side))
    ensures t4 == Replace(t, g, Restructure(Subtree(t, g), side, dz))
  {
    var s := Subtree(t, g);
    var p := Child(s, side);
    var s1 := WithChild(s, side, if dz == Other(side) then Rot(p, side) else p);
    if dz == Other(side) {
      RotateBelow(t, g, [side], side);
      RotateChild(s, side, side);
    } else {
      ReplaceSame(t, g);
      assert s1 == s;
    }
    AtReplaced(t, g, s1);
    PaintBelow(t1, g, [side], Black);
    PaintChild(s1, side, Black);
    var s2 := WithChild(s1, side, Recolor(Child(s1, side), Black));
    ReplaceTwice(t, g, s1, s2);
    AtReplaced(t, g, s2);
    PaintBelow(t2, g, [], Red);
    assert g + [] == g;
    var s3 := s2.(color := Red);
    ReplaceTwice(t, g, s2, s3);
    AtReplaced(t, g, s3);
    ReplaceTwice(t, g, s3, Rot(s3, Other(side)));
    assert Rot(s3, Other(side)) == Restructure(s, side, dz);
  }

  // ---------------------------------------------------------------------------
  // The loop invariant of tree_insert_fixup

  /**
   z is a RED node with BLACK children, every path meets the same number of
   BLACK nodes, and the only RED node with a RED child may be z's parent:
   with z painted BLACK no RED-RED pair is left.
   */
  predicate FixupInv<V>(t: Tree<V>, z: Path) {
    IsNode(t, z) && Subtree(t, z).color == Red &&
    ColorOf(Subtree(t, z).left) == Black && ColorOf(Subtree(t, z).right) == Black &&
    Balanced(t) && NoRedRed(Replace(t, z, Subtree(t, z).(color := Black)))
  }

  /** With z painted BLACK the subtree at the grandparent has no RED-RED pair. */
  function Masked<V>(s: Tree<V>, side: Dir, dz: Dir): Tree<V>
    requires s.Node? && Child(s, side).Node? && Child(Child(s, side), dz).Node?
  {
    var p := Child(s, side);
    WithChild(s, side, WithChild(p, dz, Child(p, dz).(color := Black)))
  }

  /** What the invariant says about the subtree at the grandparent when z's parent is RED. */
  lemma GrandparentFacts<V>(t: Tree<V>, z: Path)
    requires FixupInv(t, z) && |z| >= 2 && ColorOf(Subtree(t, Up(z))) == Red
    ensures var g, side, dz := Up(Up(z)), Last(Up(z)), Last(z);
      var s := Subtree(t, g);
      IsNode(t, g) && Child(s, side).Node? && Child(Child(s, side), dz) == Subtree(t, z) &&
      Replace(t, z, Subtree(t, z).(color := Black)) == Replace(t, g, Masked(s, side, dz)) &&
      NoRedRed(Masked(s, side, dz)) && Balanced(s) && s.color == Black
  {
    var p, g := Up(z), Up(Up(z));
    var side, dz := Last(p), Last(z);
    FixupShape(t, z);
    var s := Subtree(t, g);
    var zb := Subtree(t, z).(color := Black);
    assert z == g + [side, dz];
    ReplaceAppend(t, g, [side, dz], zb);
    assert [side, dz][0] == side && [side, dz][1..] == [dz] && [dz][1..] == [];
    var m := Masked(s, side, dz);
    var pn := Child(s, side);
    assert Replace(pn, [dz], zb) == WithChild(pn, dz, Replace(Child(pn, dz), [], zb));
    assert Replace(s, [side, dz], zb) == WithChild(s, side, Replace(pn, [dz], zb));
    assert Replace(s, [side, dz], zb) == m;
    AtReplaced(t, g, m);
    NoRedRedSub(Replace(t, g, m), g);
    BalancedSub(t, g);
  }

  /** The parts of the grandparent's subtree, read off the masked subtree. */
  lemma MaskedFacts<V>(s: Tree<V>, side: Dir, dz: Dir)
    requires s.Node? && Child(s, side).Node? && Child(Child(s, side), dz).Node?
    requires NoRedRed(Masked(s, side, dz)) && Child(s, side).color == Red
    requires ColorOf(Child(Child(s, side), dz).left) == Black && ColorOf(Child(Child(s, side), dz).right) == Black
    ensures var p := Child(s, side);
      NoRedRed(Child(p, dz)) && NoRedRed(Child(p, Other(dz))) && ColorOf(Child(p, Other(dz))) == Black &&
      NoRedRed(Child(s, Other(side))) && NoRedRed(p.(color := Black))
  {
    var p := Child(s, side);
    var zn := Child(p, dz);
    var pm := WithChild(p, dz, zn.(color := Black));
    var m := Masked(s, side, dz);
    assert NoRedRed(pm) && NoRedRed(Child(s, Other(side))) by {
      if side == L {
        assert m.left == pm && m.right == s.right;
      } else {
        assert m.right == pm && m.left == s.left;
      }
    }
    if dz == L {
      assert pm.left == zn.(color := Black) && pm.right == p.right;
    } else {
      assert pm.right == zn.(color := Black) && pm.left == p.left;
    }
    var zb := zn.(color := Black);
    assert NoRedRed(zb) && zb.left == zn.left && zb.right == zn.right;
  }

  /** The RED-uncle round: the grandparent becomes the new RED z, with BLACK children. */
  lemma FlipFacts<V>(s: Tree<V>, side: Dir, dz: Dir)
    requires s.Node? && s.color == Black && Balanced(s)
    requires Child(s, side).Node? && Child(Child(s, side), dz).Node? && Child(s, side).color == Red
    requires Child(Child(s, side), dz).color == Red && ColorOf(Child(s, Other(side))) == Red
    requires NoRedRed(Masked(s, side, dz))
    requires ColorOf(Child(Child(s, side), dz).left) == Black && ColorOf(Child(Child(s, side), dz).right) == Black
    ensures Balanced(Flip(s)) && BlackHeight(Flip(s)) == BlackHeight(s)
    ensures Flip(s).color == Red && ColorOf(Flip(s).left) == Black && ColorOf(Flip(s).right) == Black
    ensures NoRedRed(Flip(s).(color := Black))
  {
    MaskedFacts(s, side, dz);
    var p, u := Child(s, side), Child(s, Other(side));
    assert NoRedRed(u.(color := Black));
    BlackenBalanced(s.left);
    BlackenBalanced(s.right);
  }

  lemma BlackenBalanced<V>(x: Tree<V>)
    requires x.Node? && Balanced(x)
    ensures Balanced(x.(color := Black)) && BlackHeight(x.(color := Black)) == BlackHeight(x.left) + 1
  {
  }

  /** The BLACK-uncle round leaves a BLACK root with no RED-RED pair and the same black height. */
  lemma RestructureFacts<V>(s: Tree<V>, side: Dir, dz: Dir)
    requires s.Node? && s.color == Black && Balanced(s)
    requires Child(s, side).Node? && Child(Child(s, side), dz).Node? && Child(s, side).color == Red
    requires Child(Child(s, side), dz).color == Red && ColorOf(Child(s, Other(side))) == Black
    requires NoRedRed(Masked(s, side, dz))
    requires ColorOf(Child(Child(s, side), dz).left) == Black && ColorOf(Child(Child(s, side), dz).right) == Black
    ensures Restructure(s, side, dz).color == Black
    ensures Balanced(Restructure(s, side, dz)) && BlackHeight(Restructure(s, side, dz)) == BlackHeight(s)
    ensures NoRedRed(Restructure(s, side, dz))
  {
    MaskedFacts(s, side, dz);
    GrandparentParts(s, side, dz);
    var p, u := Child(s, side), Child(s, Other(side));
    var zn := Child(p, dz);
    var r := Restructure(s, side, dz);
    if side == L && dz == L {
      var x, y := Node(Red, zn.left, zn.key, zn.value, zn.right), Node(Red, p.right, s.key, s.value, u);
      assert r == Node(Black, x, p.key, p.value, y);
      TwoRed(x, y, r);
    } else if side == L {
      var x, y := Node(Red, p.left, p.key, p.value, zn.left), Node(Red, zn.right, s.key, s.value, u);
      assert r == Node(Black, x, zn.key, zn.value, y);
      TwoRed(x, y, r);
    } else if dz == R {
      var x, y := Node(Red, u, s.key, s.value, p.left), Node(Red, zn.left, zn.key, zn.value, zn.right);
      assert r == Node(Black, x, p.key, p.value, y);
      TwoRed(x, y, r);
    } else {
      var x, y := Node(Red, u, s.key, s.value, zn.left), Node(Red, zn.right, p.key, p.value, p.right);
      assert r == Node(Black, x, zn.key, zn.value, y);
      TwoRed(x, y, r);
    }
  }

  /** Below the grandparent: z's children, z's sibling and the uncle all have the parent's black height. */
  lemma GrandparentParts<V>(s: Tree<V>, side: Dir, dz: Dir)
    requires s.Node? && s.color == Black && Balanced(s)
    requires Child(s, side).Node? && Child(Child(s, side), dz).Node? && Child(s, side).color == Red
    requires Child(Child(s, side), dz).color == Red
    ensures var p := Child(s, side); var zn := Child(p, dz);
      var h := BlackHeight(s) - 1;
      Balanced(zn.left) && Balanced(zn.right) && Balanced(Child(p, Other(dz))) && Balanced(Child(s, Other(side))) &&
      BlackHeight(zn.left) == h && BlackHeight(zn.right) == h &&
      BlackHeight(Child(p, Other(dz))) == h && BlackHeight(Child(s, Other(side))) == h
  {
    var p, u := Child(s, side), Child(s, Other(side));
    var zn := Child(p, dz);
    assert Balanced(p) && Balanced(u) && BlackHeight(p) == BlackHeight(u) == BlackHeight(s) - 1;
    assert Balanced(zn) && Balanced(Child(p, Other(dz))) && BlackHeight(zn) == BlackHeight(Child(p, Other(dz))) == BlackHeight(p);
  }

  /** A BLACK node over two RED nodes over four BLACK-rooted subtrees of equal black height. */
  lemma TwoRed<V>(x: Tree<V>, y: Tree<V>, r: Tree<V>)
    requires x.Node? && x.color == Red && y.Node? && y.color == Red
    requires r.Node? && r.color == Black && r.left == x && r.right == y
    requires NoRedRed(x.left) && NoRedRed(x.right) && NoRedRed(y.left) && NoRedRed(y.right)
    requires ColorOf(x.left) == Black && ColorOf(x.right) == Black && ColorOf(y.left) == Black && ColorOf(y.right) == Black
    requires Balanced(x.left) && Balanced(x.right) && Balanced(y.left) && Balanced(y.right)
    requires var h := BlackHeight(x.left);
      BlackHeight(x.right) == h && BlackHeight(y.left) == h && BlackHeight(y.right) == h
    ensures NoRedRed(r) && Balanced(r) && BlackHeight(r) == BlackHeight(x.left) + 1
  {
    assert NoRedRed(x) && Balanced(x) && BlackHeight(x) == BlackHeight(x.left);
    assert NoRedRed(y) && Balanced(y) && BlackHeight(y) == BlackHeight(y.left);
  }

  /** Blackening the root touches nothing below it. */
  lemma BlackenRootBelow<V>(t: Tree<V>, q: Path, x: Tree<V>)
    requires q != [] && IsPosition(t, q)
    ensures IsPosition(BlackenRoot(t), q) && Subtree(BlackenRoot(t), q) == Subtree(t, q)
    ensures Replace(BlackenRoot(t), q, x) == BlackenRoot(Replace(t, q, x))
  {
    assert Child(BlackenRoot(t), q[0]) == Child(t, q[0]);
  }

  /** When the loop stops, blackening the root leaves a red-black tree. */
  lemma ExitRedBlack<V>(t: Tree<V>, z: Path)
    requires FixupInv(t, z) && (|z| < 2 || ColorOf(Subtree(t, Up(z))) == Black)
    ensures IsRedBlack(BlackenRoot(t))
  {
    var zs := Subtree(t, z);
    var zb := zs.(color := Black);
    var tb := Replace(t, z, zb);
    AtReplaced(t, z, zb);
    NoRedRedSub(tb, z);
    assert NoRedRed(zs) by {
      assert zb.left == zs.left && zb.right == zs.right;
    }
    if z == [] {
      assert BlackenRoot(t) == zb;
    } else {
      var tb' := BlackenRoot(tb);
      BlackenRootBelow(tb, z, zb);
      BlackenRootBelow(tb, z, zs);
      ReplaceTwice(t, z, zb, zb);
      ReplaceTwice(t, z, zb, zs);
      ReplaceSame(t, z);
      assert Replace(tb', z, zb) == tb';
      assert Replace(tb', z, zs) == BlackenRoot(t);
      if |z| >= 2 {
        ParentNode(t, z);
        assert z == Up(z) + [Last(z)];
        ReplaceBelow(t, Up(z), [Last(z)], zb);
        BlackenRootBelow(tb, Up(z), zb);
      }
      NoRedRedReplace(tb', z, zb, zs);
    }
  }

  /**
   tree_insert_fixup started from a state that satisfies the loop invariant
   ends in a red-black tree.
   */
  lemma {:induction false} FixupRedBlack<V>(t: Tree<V>, z: Path)
    requires FixupInv(t, z)
    ensures IsRedBlack(InsertFixup(t, z))
    decreases |z|
  {
    if |z| < 2 || ColorOf(Subtree(t, Up(z))) == Black {
      ExitRedBlack(t, z);
    } else {
      var p := Up(z);
      var g := Up(p);
      var side, dz := Last(p), Last(z);
      FixupShape(t, z);
      GrandparentFacts(t, z);
      var s := Subtree(t, g);
      var m := Masked(s, side, dz);
      ChildPosition(t, g, Other(side));
      ChildPosition(t, g, side);
      if ColorOf(Subtree(t, g + [Other(side)])) == Red {
        var t1 := Paint(t, p, Black);
        RecolorKeepsShape(t, g, side);
        var t2 := Paint(t1, g + [Other(side)], Black);
        var t3 := Paint(t2, g, Red);
        ChainFlip(t, g, side, t1, t2, t3);
        FlipFacts(s, side, dz);
        var f := Flip(s);
        BalancedReplace(t, g, f);
        NoRedRedReplace(t, g, m, f.(color := Black));
        AtReplaced(t, g, f);
        ReplaceTwice(t, g, f, f.(color := Black));
        assert FixupInv(t3, g);
        FixupRedBlack(t3, g);
        assert InsertFixup(t, z) == InsertFixup(t3, g);
      } else {
        var t1 := if Last(z) == Other(side) then RotateDown(t, p, side) else t;
        InnerRotationShape(t, z, t1);
        var t2 := Paint(t1, p, Black);
        PaintParentShape(t1, g, side, t2);
        var t3 := Paint(t2, g, Red);
        var t4 := RotateDown(t3, g, Other(side));
        ChainRestructure(t, g, side, dz, t1, t2, t3, t4);
        RestructureFacts(s, side, dz);
        var r := Restructure(s, side, dz);
        BalancedReplace(t, g, r);
        NoRedRedReplace(t, g, m, r);
        AtReplaced(t, g, r);
        ChildPosition(t4, g, side);
        var z' := g + [side];
        assert Up(z') == g;
        assert InsertFixup(t, z) == InsertFixup(t4, z');
        assert InsertFixup(t4, z') == BlackenRoot(t4);
        assert NoRedRed(BlackenRoot(t4)) && Balanced(BlackenRoot(t4));
      }
    }
  }

  /**
   tree_insert keeps a red-black tree red-black: the new RED leaf breaks at
   most the rule between it and its parent, and the fix-up repairs that.
   */
  lemma InsertRedBlack<V>(t: Tree<V>, key: real, value: V)
    requires IsRedBlack(t)
    ensures Insert(t, key, value).Some? ==> IsRedBlack(Insert(t, key, value).value)
  {
    var z := Node(Red, Nil, key, value, Nil);
    var zb := z.(color := Black);
    var p := DescentPath(t, key);
    if p == [] {
      assert FixupInv(z, []);
      FixupRedBlack(z, []);
    } else if Insert(t, key, value).Some? {
      var t' := Replace(t, p, z);
      AtReplaced(t, p, z);
      BalancedReplace(t, p, z);
      ReplaceSame(t, p);
      NoRedRedReplace(t, p, Nil, zb);
      ReplaceTwice(t, p, z, zb);
      assert FixupInv(t', p);
      FixupRedBlack(t', p);
      assert Insert(t, key, value).value == InsertFixup(t', p);
    }
  }
}
