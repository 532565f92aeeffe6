/**
 A run of boxes_init, INSERTBOX and REMOVEBOX on which boxes.c, through the
 colour writes of tree_delete_fixup in trees.c, reaches a deletion that
 reads the sentinel's NULL child links. The side tree it builds is, up to
 its values, the tree of counters that module RbDeleteColors deletes 3 and
 then 8 from; module RbValues carries that run over.
 */
module BoxCrash {
  import opened Options
  import opened RbTree
  import opened RbQuery
  import opened RbInsert
  import opened RbDelete
  import opened RbColors
  import opened RbDeleteColors
  import opened RbValues
  import opened Boxes
  import opened BoxUpdates

  /** INSERTBOX of each side in turn, all with the same height. */
  function InsertSides(b: Boxes, sides: seq<real>, height: real): Boxes
    decreases |sides|
  {
    if sides == [] then b else InsertSides(InsertBox(b, sides[0], height), sides[1..], height)
  }

  /** A run of INSERTBOX keeps the index valid and, from an index that follows them, the red-black rules. */
  lemma {:induction false} InsertSidesKeeps(b: Boxes, sides: seq<real>, height: real)
    requires Valid(b) && RedBlackIndex(b)
    ensures Valid(InsertSides(b, sides, height)) && RedBlackIndex(InsertSides(b, sides, height))
    decreases |sides|
  {
    if sides != [] {
      InsertBoxValid(b, sides[0], height);
      InsertBoxRedBlack(b, sides[0], height);
      InsertSidesKeeps(InsertBox(b, sides[0], height), sides[1..], height);
    }
  }

  /** The height tree INSERTBOX gives a new side with one box of height 1. */
  const OneBox: Tree<int> := Node(Black, Nil, 1.0, 1, Nil)

  lemma NewSideHeights()
    ensures InsertNew(Init(), 1.0, 1) == OneBox
  {
    assert Insert(Init<int>(), 1.0, 1) == Some(InsertFixup(Node(Red, Nil, 1.0, 1, Nil), []));
  }

  /**
   INSERTBOX of sides that lie apart from each other and from every stocked
   side, each with one box of height 1, links and colours the side tree as
   tree_insert of the sides alone would.
   */
  lemma {:induction false} InsertSidesValued(t: Tree<int>, sides: seq<real>)
    requires InsertAll(t, sides).Some?
    requires forall i, j :: 0 <= i < j < |sides| ==> !FloatEqual(sides[i], sides[j])
    requires forall i :: 0 <= i < |sides| ==> !HasNear(t, sides[i])
    ensures InsertSides(Boxes(Valued(t, OneBox)), sides, 1.0) == Boxes(Valued(InsertAll(t, sides).value, OneBox))
    decreases |sides|
  {
    if sides != [] {
      var k, rest := sides[0], sides[1..];
      var t1 := Insert(t, k, 0).value;
      InsertSideValued(t, k);
      forall i | 0 <= i < |rest| ensures !HasNear(t1, rest[i]) {
        assert rest[i] == sides[i + 1];
        assert !FloatEqual(sides[0], sides[i + 1]);
        assert !HasNear(t, sides[i + 1]);
      }
      forall i, j | 0 <= i < j < |rest| ensures !FloatEqual(rest[i], rest[j]) {
        assert rest[i] == sides[i + 1] && rest[j] == sides[j + 1];
      }
      InsertSidesValued(t1, rest);
    }
  }

  /** One INSERTBOX of a new side with one box of height 1, as tree_insert of the side alone. */
  lemma InsertSideValued(t: Tree<int>, k: real)
    requires !HasNear(t, k) && Insert(t, k, 0).Some?
    ensures Keys(Insert(t, k, 0).value) == Keys(t) + {k}
    ensures InsertBox(Boxes(Valued(t, OneBox)), k, 1.0) == Boxes(Valued(Insert(t, k, 0).value, OneBox))
  {
    var tv := Valued(t, OneBox);
    ValuedSearch(t, k, OneBox);
    assert Search(tv, k).None?;
    NewSideHeights();
    ValuedInsert(t, k, 0, OneBox);
  }

  /** Sides 10, 5, 15, 3, 7 and 8, in the order they are inserted. */
  const SixSides: seq<real> := [10.0, 5.0, 15.0, 3.0, 7.0, 8.0]

  lemma SixSidesApart()
    ensures forall i, j :: 0 <= i < j < |SixSides| ==> !FloatEqual(SixSides[i], SixSides[j])
  {
  }

  lemma BuildSixSides()
    ensures InsertSides(BoxesInit(), SixSides, 1.0) == Boxes(Valued(SixNodes, OneBox))
  {
    BuildSixNodes();
    SixSidesApart();
    var e: Tree<int> := Init();
    assert BoxesInit() == Boxes(Valued(e, OneBox));
    InsertSidesValued(e, SixSides);
  }

  /** REMOVEBOX of the only box of a side: its height tree empties, with either colour writes. */
  lemma OneBoxEmpties(f: Fixup)
    ensures Delete(SetValue(OneBox, [], 0), [], f) == Some(Nil)
  {
    assert SetValue(OneBox, [], 0) == Node(Black, Nil, 1.0, 0, Nil);
  }

  lemma FindThree()
    ensures Search(Valued(SixNodes, OneBox), 3.0) == Some([L, L])
  {
    ValuedSearch(SixNodes, 3.0, OneBox);
    assert DoSearch(Leaf(Black, 3.0), 3.0) == Some([]);
    assert [L] + [] == [L] && [L] + [L] == [L, L];
    assert DoSearch(SixNodes.left, 3.0) == Some([L]);
  }

  lemma FindEight()
    ensures Search(Valued(SixLess3, OneBox), 8.0) == Some([L, R])
  {
    ValuedSearch(SixLess3, 8.0, OneBox);
    assert DoSearch(Leaf(Black, 8.0), 8.0) == Some([]);
    assert DoSearch(Leaf(Red, 5.0), 8.0) == None;
    assert [R] + [] == [R] && [L] + [R] == [L, R];
    assert DoSearch(SixLess3.left, 8.0) == Some([R]);
  }

  /** REMOVEBOX of side 3 unlinks it with the colour writes of trees.c. */
  lemma RemoveThree()
    ensures RemoveBox(Boxes(Valued(SixNodes, OneBox)), 3.0, 1.0, AsWritten) == Some((0, Boxes(Valued(SixLess3, OneBox))))
  {
    var t := Valued(SixNodes, OneBox);
    SixNodesColors();
    FindThree();
    ValuedSubtree(SixNodes, [L, L], OneBox);
    assert NodeValue(t, [L, L]) == OneBox;
    assert Search(OneBox, 1.0) == Some([]);
    OneBoxEmpties(AsWritten);
    ValuedDelete(SixNodes, [L, L], AsWritten, OneBox);
    DeleteThree();
    RemoveBoxAtLast(Boxes(t), 3.0, 1.0, [L, L], [], AsWritten);
  }

  /** REMOVEBOX of side 8 then meets a sentinel sibling in tree_delete_fixup. */
  lemma RemoveEight()
    ensures RemoveBox(Boxes(Valued(SixLess3, OneBox)), 8.0, 1.0, AsWritten).None?
  {
    var t := Valued(SixLess3, OneBox);
    SixNodesColors();
    FindEight();
    ValuedSubtree(SixLess3, [L, R], OneBox);
    assert NodeValue(t, [L, R]) == OneBox;
    assert Search(OneBox, 1.0) == Some([]);
    OneBoxEmpties(AsWritten);
    ValuedDelete(SixLess3, [L, R], AsWritten, OneBox);
    DeleteEight();
    RemoveBoxAtLast(Boxes(t), 8.0, 1.0, [L, R], [], AsWritten);
  }

  /**
   boxes_init, INSERTBOX of sides 10, 5, 15, 3, 7 and 8, each with one box
   of height 1, then REMOVEBOX of side 3 and of side 8. With the colour
   writes of trees.c the first removal returns 0 and keeps the index valid
   but leaves the side tree breaking the red-black rules; the second reads
   the sentinel's NULL child links (trees.c:308). With the textbook writes
   both removals return.
   */
  lemma RemoveBoxCrash()
    ensures var b6 := InsertSides(BoxesInit(), SixSides, 1.0);
      var r7 := RemoveBox(b6, 3.0, 1.0, AsWritten);
      Valid(b6) && RedBlackIndex(b6) &&
      r7.Some? && r7.value.0 == 0 && Valid(r7.value.1) && !RedBlackIndex(r7.value.1) &&
      RemoveBox(r7.value.1, 8.0, 1.0, AsWritten).None?
    ensures var b6 := InsertSides(BoxesInit(), SixSides, 1.0);
      var t7 := RemoveBox(b6, 3.0, 1.0, Textbook);
      t7.Some? && RemoveBox(t7.value.1, 8.0, 1.0, Textbook).Some?
  {
    var b6 := InsertSides(BoxesInit(), SixSides, 1.0);
    InsertSidesKeeps(BoxesInit(), SixSides, 1.0);
    BuildSixSides();
    RemoveThree();
    RemoveBoxValid(b6, 3.0, 1.0, AsWritten);
    SixNodesColors();
    ValuedColors(SixLess3, OneBox);
    RemoveEight();
    RemoveBoxRedBlack(b6, 3.0, 1.0);
    RemoveBoxRedBlack(RemoveBox(b6, 3.0, 1.0, Textbook).value.1, 8.0, 1.0);
  }
}
