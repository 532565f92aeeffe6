/**
 What INSERTBOX and REMOVEBOX of boxes.c do to the stock of boxes, read
 through the abstract view `Stock`, and that both keep the index `Valid`.
 An insertion followed by the removal of the same box gives the stock back.
 */
module BoxUpdates {
  import opened Options
  import opened Sequences
  import opened RbTree
  import opened RbQuery
  import opened RbInsert
  import opened RbDelete
  import opened RbColors
  import opened RbDeleteColors
  import opened Boxes

  // ---------------------------------------------------------------------------
  // Tree updates as map updates

  /** Writing a value at a node changes the map view at that node's key only. */
  lemma SetValueMap<V>(t: Tree<V>, p: Path, v: V)
    requires Ordered(t) && IsNode(t, p)
    ensures Ordered(SetValue(t, p, v))
    ensures Separated(Entries(t)) ==> Separated(Entries(SetValue(t, p, v)))
    ensures AsMap(Entries(SetValue(t, p, v))) == AsMap(Entries(t))[Subtree(t, p).key := v]
  {
    EntryAtRank(t, p);
    AsMapUpdate(Entries(t), Rank(t, p), v);
  }

  /** Inserting a key no stored key is near adds exactly that key and keeps the keys apart. */
  lemma InsertNewMap<V>(t: Tree<V>, k: real, v: V)
    requires Ordered(t) && !HasNear(t, k)
    ensures Ordered(InsertNew(t, k, v))
    ensures Entries(InsertNew(t, k, v)) == InsertSorted(Entries(t), k, v)
    ensures Separated(Entries(t)) ==> Separated(Entries(InsertNew(t, k, v)))
    ensures AsMap(Entries(InsertNew(t, k, v))) == AsMap(Entries(t))[k := v]
  {
    assert k in Keys(t) ==> HasNear(t, k);
    InsertFresh(t, k, v);
    AsMapInsert(Entries(t), k, v);
    var es := Entries(t);
    forall j | 0 <= j < |es| ensures !FloatEqual(es[j].0, k) {
      assert es[j].0 in Keys(t);
    }
    if Separated(es) {
      SeparatedInsert(es, k, v);
    }
  }

  /** Deleting a node removes exactly its key from the map view and keeps the keys apart. */
  lemma DeleteMap<V>(t: Tree<V>, p: Path, f: Fixup)
    requires Ordered(t) && IsNode(t, p) && Delete(t, p, f).Some?
    ensures Ordered(Delete(t, p, f).value)
    ensures Separated(Entries(t)) ==> Separated(Entries(Delete(t, p, f).value))
    ensures AsMap(Entries(Delete(t, p, f).value)) == AsMap(Entries(t)) - {Subtree(t, p).key}
  {
    EntryAtRank(t, p);
    DeleteOrdered(t, p, f);
    AsMapRemove(Entries(t), Rank(t, p));
  }

  /** A node's key and value are what the map view holds for that key. */
  lemma MapAtNode<V>(t: Tree<V>, p: Path)
    requires Ordered(t) && IsNode(t, p)
    ensures Subtree(t, p).key in AsMap(Entries(t))
    ensures AsMap(Entries(t))[Subtree(t, p).key] == Subtree(t, p).value
  {
    EntryAtRank(t, p);
    AsMapAt(Entries(t), Rank(t, p));
  }

  lemma SeparatedInsert<V>(es: seq<(real, V)>, k: real, v: V)
    requires Separated(es)
    requires forall j :: 0 <= j < |es| ==> !FloatEqual(es[j].0, k)
    ensures Separated(InsertSorted(es, k, v))
  {
    var i := InsertSortedShape(es, k, v);
    var r := InsertSorted(es, k, v);
    forall a, b | 0 <= a < b < |r| ensures !FloatEqual(r[a].0, r[b].0) {
      var a' := if a < i then a else a - 1;
      var b' := if b < i then b else b - 1;
      if a != i && b != i {
        assert r[a] == es[a'] && r[b] == es[b'];
      } else if a == i {
        assert r[b] == es[b'];
      } else {
        assert r[a] == es[a'];
      }
    }
  }

  lemma SeparatedRemove<V>(es: seq<(real, V)>, i: nat)
    requires Separated(es) && i < |es|
    ensures Separated(RemoveAt(es, i))
  {
    var r := RemoveAt(es, i);
    forall a, b | 0 <= a < b < |r| ensures !FloatEqual(r[a].0, r[b].0) {
      var a' := if a < i then a else a + 1;
      var b' := if b < i then b else b + 1;
      assert r[a] == es[a'] && r[b] == es[b'];
    }
  }

  lemma LiftUpdate(m: map<real, Tree<int>>, k: real, v: Tree<int>)
    ensures Lift(m[k := v]) == Lift(m)[k := Counts(v)]
  {
  }

  lemma LiftRemove(m: map<real, Tree<int>>, k: real)
    ensures Lift(m - {k}) == Lift(m) - {k}
  {
  }

  /** The side entry at a node: its key is a stocked side, its height tree is valid and gives that side's counters. */
  lemma SideAtNode(b: Boxes, sp: Path)
    requires Valid(b) && IsNode(b.sides, sp)
    ensures Rank(b.sides, sp) < |Entries(b.sides)|
    ensures var s := Subtree(b.sides, sp).key;
      s in Stock(b) && Stock(b)[s] == Counts(NodeValue(b.sides, sp)) &&
      Stock(b)[s].Keys == Keys(NodeValue(b.sides, sp)) &&
      ValidHeights(NodeValue(b.sides, sp))
  {
    EntryAtRank(b.sides, sp);
    StockAt(b, Rank(b.sides, sp));
  }

  /** The stocked sides are the keys of the side tree. */
  lemma StockKeys(b: Boxes)
    ensures Stock(b).Keys == Keys(b.sides)
  {
    AsMapKeys(Entries(b.sides));
  }

  lemma NoEntriesNoKeys<V>(t: Tree<V>)
    ensures Entries(t) == [] <==> Keys(t) == {}
  {
    if Entries(t) != [] {
      assert Entries(t)[0].0 in Keys(t);
    }
  }

  // ---------------------------------------------------------------------------
  // One step on a height tree or on the side tree

  /** Writing a stocked counter at a height keeps the height tree valid and changes that counter only. */
  lemma HeightUpdate(h: Tree<int>, hp: Path, c: int)
    requires ValidHeights(h) && IsNode(h, hp) && Stocked(c)
    ensures ValidHeights(SetValue(h, hp, c))
    ensures Counts(SetValue(h, hp, c)) == Counts(h)[Subtree(h, hp).key := c]
  {
    SetValueMap(h, hp, c);
    AllValuesUpdate(Entries(h), Rank(h, hp), Subtree(h, hp).key, c, Stocked);
  }

  /** Adding a height no stocked height is near, with one box, keeps the height tree valid. */
  lemma HeightInsert(h: Tree<int>, k: real)
    requires Ordered(h) && Separated(Entries(h)) && AllValues(Entries(h), Stocked) && !HasNear(h, k)
    ensures ValidHeights(InsertNew(h, k, 1))
    ensures Counts(InsertNew(h, k, 1)) == Counts(h)[k := 1]
  {
    InsertNewMap(h, k, 1);
    AllValuesInsert(Entries(h), k, 1, Stocked);
  }

  /** Dropping one entry of a valid counter sequence; nothing is left exactly when it held one key. */
  lemma RemoveCounter(es: seq<(real, int)>, i: nat)
    requires StrictlyIncreasing(es) && Separated(es) && AllValues(es, Stocked) && i < |es|
    ensures var r := RemoveAt(es, i);
      StrictlyIncreasing(r) && Separated(r) && AllValues(r, Stocked) &&
      AsMap(r) == AsMap(es) - {es[i].0} &&
      (r == [] <==> AsMap(es).Keys == {es[i].0})
  {
    RemoveAtIncreasing(es, i);
    SeparatedRemove(es, i);
    AllValuesRemove(es, i, Stocked);
    AsMapRemove(es, i);
    AsMapKeys(es);
    if |es| > 1 {
      var j := if i == 0 then 1 else 0;
      assert es[j].0 in KeysOf(es) && es[j].0 != es[i].0;
    }
  }

  /**
   The last box of a height goes: its counter drops to 0 and tree_delete
   unlinks it. Unless the deletion meets a sentinel sibling, which a red-black
   height tree rules out, what is left is empty exactly when that was the
   only height, and valid otherwise.
   */
  lemma HeightRemove(h: Tree<int>, hp: Path, f: Fixup)
    requires ValidHeights(h) && IsNode(h, hp)
    ensures IsRedBlack(h) ==> Delete(SetValue(h, hp, 0), hp, f).Some?
    ensures var d := Delete(SetValue(h, hp, 0), hp, f);
      d.Some? ==>
        Counts(d.value) == Counts(h) - {Subtree(h, hp).key} &&
        (IsEmpty(d.value) <==> Counts(h).Keys == {Subtree(h, hp).key}) &&
        (!IsEmpty(d.value) ==> ValidHeights(d.value))
  {
    var h1 := SetValue(h, hp, 0);
    if IsRedBlack(h) {
      SetValueRedBlack(h, hp, 0);
      DeleteRedBlack(h1, hp, f);
    }
    if Delete(h1, hp, f).Some? {
      var h2 := Delete(h1, hp, f).value;
      var i := Rank(h, hp);
      EntryAtRank(h, hp);
      RemoveAtUpdated(Entries(h), i, (Subtree(h, hp).key, 0));
      assert Entries(h2) == RemoveAt(Entries(h), i);
      RemoveCounter(Entries(h), i);
      IsEmptyIffNoEntries(h2);
    }
  }

  /** Writing a valid height tree under a side keeps the index valid and changes that side only. */
  lemma SideUpdate(b: Boxes, sp: Path, h: Tree<int>)
    requires Valid(b) && IsNode(b.sides, sp) && ValidHeights(h)
    ensures Valid(Boxes(SetValue(b.sides, sp, h)))
    ensures Stock(Boxes(SetValue(b.sides, sp, h))) == Stock(b)[Subtree(b.sides, sp).key := Counts(h)]
  {
    SetValueMap(b.sides, sp, h);
    AllValuesUpdate(Entries(b.sides), Rank(b.sides, sp), Subtree(b.sides, sp).key, h, ValidHeights);
    LiftUpdate(AsMap(Entries(b.sides)), Subtree(b.sides, sp).key, h);
  }

  /** Adding a side no stocked side is near keeps the index valid and adds that side only. */
  lemma SideInsert(b: Boxes, k: real, h: Tree<int>)
    requires Valid(b) && !HasNear(b.sides, k) && ValidHeights(h)
    ensures Valid(Boxes(InsertNew(b.sides, k, h)))
    ensures Stock(Boxes(InsertNew(b.sides, k, h))) == Stock(b)[k := Counts(h)]
  {
    InsertNewMap(b.sides, k, h);
    AllValuesInsert(Entries(b.sides), k, h, ValidHeights);
    LiftUpdate(AsMap(Entries(b.sides)), k, h);
  }

  /**
   Unlinking a side keeps the index valid and drops that side only, unless
   the deletion meets a sentinel sibling, which a red-black side tree rules out.
   */
  lemma SideRemove(b: Boxes, sp: Path, f: Fixup)
    requires Valid(b) && IsNode(b.sides, sp)
    ensures IsRedBlack(b.sides) ==> Delete(b.sides, sp, f).Some?
    ensures var d := Delete(b.sides, sp, f);
      d.Some? ==> Valid(Boxes(d.value)) && Stock(Boxes(d.value)) == Stock(b) - {Subtree(b.sides, sp).key}
  {
    if IsRedBlack(b.sides) {
      DeleteRedBlack(b.sides, sp, f);
    }
    if Delete(b.sides, sp, f).Some? {
      DeleteMap(b.sides, sp, f);
      EntryAtRank(b.sides, sp);
      AllValuesRemove(Entries(b.sides), Rank(b.sides, sp), ValidHeights);
      LiftRemove(AsMap(Entries(b.sides)), Subtree(b.sides, sp).key);
    }
  }

  /** The nodes the two searches of INSERTBOX and REMOVEBOX land on, when both succeed. */
  lemma Located(b: Boxes, side: real, height: real) returns (sp: Path, hp: Path)
    requires Valid(b) && FoundHeight(b, side, height).Some?
    ensures Search(b.sides, side) == Some(sp) && IsNode(b.sides, sp)
    ensures FoundSide(b, side) == Some(Subtree(b.sides, sp).key)
    ensures ValidHeights(NodeValue(b.sides, sp))
    ensures Stock(b)[Subtree(b.sides, sp).key] == Counts(NodeValue(b.sides, sp))
    ensures Search(NodeValue(b.sides, sp), height) == Some(hp) && IsNode(NodeValue(b.sides, sp), hp)
    ensures FoundHeight(b, side, height) == Some(Subtree(NodeValue(b.sides, sp), hp).key)
    ensures var h := Subtree(NodeValue(b.sides, sp), hp);
      h.key in Counts(NodeValue(b.sides, sp)) && Counts(NodeValue(b.sides, sp))[h.key] == h.value
  {
    sp := Search(b.sides, side).value;
    SideAtNode(b, sp);
    FoundHeightFacts(b, side, height, sp);
    hp := Search(NodeValue(b.sides, sp), height).value;
    MapAtNode(NodeValue(b.sides, sp), hp);
  }

  // ---------------------------------------------------------------------------
  // INSERTBOX

  /** INSERTBOX of a side no stocked side is near: the side enters with one box of the height. */
  lemma InsertBoxNewSide(b: Boxes, side: real, height: real)
    requires Valid(b) && FoundSide(b, side).None?
    ensures Valid(InsertBox(b, side, height))
    ensures Stock(InsertBox(b, side, height)) == Stock(b)[side := map[height := 1]]
  {
    var e: Tree<int> := Init();
    assert Keys(e) == {};
    HeightInsert(e, height);
    SideInsert(b, side, InsertNew(e, height, 1));
  }

  /** INSERTBOX of a height no stocked height of the side found is near: that height enters with one box. */
  lemma InsertBoxNewHeight(b: Boxes, side: real, height: real)
    requires Valid(b) && FoundSide(b, side).Some? && FoundHeight(b, side, height).None?
    ensures Valid(InsertBox(b, side, height))
    ensures var s := FoundSide(b, side).value;
      Stock(InsertBox(b, side, height)) == Stock(b)[s := Stock(b)[s][height := 1]]
  {
    var sp := Search(b.sides, side).value;
    var heights := NodeValue(b.sides, sp);
    SideAtNode(b, sp);
    FoundHeightFacts(b, side, height, sp);
    assert Search(heights, height).None?;
    HeightInsert(heights, height);
    SideUpdate(b, sp, InsertNew(heights, height, 1));
  }

  /** INSERTBOX of a side and a height both found: one more box of the found side and height. */
  lemma InsertBoxMore(b: Boxes, side: real, height: real)
    requires Valid(b) && FoundHeight(b, side, height).Some?
    ensures Valid(InsertBox(b, side, height))
    ensures var s, h := FoundSide(b, side).value, FoundHeight(b, side, height).value;
      Stock(InsertBox(b, side, height)) == Stock(b)[s := Stock(b)[s][h := Stock(b)[s][h] + 1]]
  {
    var sp, hp := Located(b, side, height);
    var heights := NodeValue(b.sides, sp);
    var c := NodeValue(heights, hp);
    var s, h := Subtree(b.sides, sp).key, Subtree(heights, hp).key;
    assert s == FoundSide(b, side).value && h == FoundHeight(b, side, height).value;
    assert Stock(b)[s] == Counts(heights) && Stock(b)[s][h] == c;
    InsertBoxAt(b, side, height, sp, hp);
    AddOneBox(b, sp, hp);
  }

  /** One more box of a stocked height increments its counter. */
  lemma AddOneBox(b: Boxes, sp: Path, hp: Path)
    requires LocatedAt(b, sp, hp)
    ensures var heights := NodeValue(b.sides, sp);
      var s, h, c := Subtree(b.sides, sp).key, Subtree(heights, hp).key, NodeValue(heights, hp);
      var b2 := Boxes(SetValue(b.sides, sp, SetValue(heights, hp, c + 1)));
      Valid(b2) && h in Stock(b)[s] && Stock(b2) == Stock(b)[s := Stock(b)[s][h := c + 1]]
  {
    var heights := NodeValue(b.sides, sp);
    var c := NodeValue(heights, hp);
    MapAtNode(heights, hp);
    EntryAtRank(heights, hp);
    assert Stocked(c);
    HeightUpdate(heights, hp, c + 1);
    SideUpdate(b, sp, SetValue(heights, hp, c + 1));
  }

  /** What INSERTBOX returns once both searches have landed. */
  lemma InsertBoxAt(b: Boxes, side: real, height: real, sp: Path, hp: Path)
    requires Search(b.sides, side) == Some(sp) && IsNode(b.sides, sp)
    requires Search(NodeValue(b.sides, sp), height) == Some(hp) && IsNode(NodeValue(b.sides, sp), hp)
    ensures var heights := NodeValue(b.sides, sp);
      InsertBox(b, side, height) == Boxes(SetValue(b.sides, sp, SetValue(heights, hp, NodeValue(heights, hp) + 1)))
  {
  }

  /** INSERTBOX keeps the index valid. */
  lemma InsertBoxValid(b: Boxes, side: real, height: real)
    requires Valid(b)
    ensures Valid(InsertBox(b, side, height))
  {
    if FoundSide(b, side).None? {
      InsertBoxNewSide(b, side, height);
    } else if FoundHeight(b, side, height).None? {
      InsertBoxNewHeight(b, side, height);
    } else {
      InsertBoxMore(b, side, height);
    }
  }

  // ---------------------------------------------------------------------------
  // REMOVEBOX

  /**
   REMOVEBOX of a side and a height both found: one box fewer of the found
   side and height; a height whose last box goes is dropped, and so is a side
   whose last height goes. With a counter above 1 nothing is deleted and the
   call always succeeds; otherwise tree_delete may meet a sentinel sibling,
   which an index following the red-black rules rules out.
   */
  lemma RemoveBoxFound(b: Boxes, side: real, height: real, f: Fixup)
    requires Valid(b) && FoundHeight(b, side, height).Some?
    ensures var s, h := FoundSide(b, side).value, FoundHeight(b, side, height).value;
      var c, r := Stock(b)[s][h], RemoveBox(b, side, height, f);
      (c > 1 || RedBlackIndex(b) ==> r.Some?) &&
      (r.Some? ==>
        r.value.0 == 0 && Valid(r.value.1) &&
        (c > 1 ==> Stock(r.value.1) == Stock(b)[s := Stock(b)[s][h := c - 1]]) &&
        (c == 1 && Stock(b)[s].Keys != {h} ==> Stock(r.value.1) == Stock(b)[s := Stock(b)[s] - {h}]) &&
        (c == 1 && Stock(b)[s].Keys == {h} ==> Stock(r.value.1) == Stock(b) - {s}))
  {
    var sp, hp := Located(b, side, height);
    var heights := NodeValue(b.sides, sp);
    var c := NodeValue(heights, hp);
    var s, h := Subtree(b.sides, sp).key, Subtree(heights, hp).key;
    assert s == FoundSide(b, side).value && h == FoundHeight(b, side, height).value;
    assert Stock(b)[s] == Counts(heights) && Stock(b)[s][h] == c;
    RemoveBoxAt(b, side, height, sp, hp, f);
    if c == 1 {
      if RedBlackIndex(b) {
        HeightsRedBlack(b, sp);
      }
      HeightRemove(heights, hp, f);
      var d2 := Delete(SetValue(heights, hp, 0), hp, f);
      if d2.Some? {
        if IsEmpty(d2.value) {
          RemoveLastHeight(b, sp, hp, f);
        } else {
          RemoveOneHeight(b, sp, hp, f);
        }
      }
    } else {
      RemoveOneBox(b, sp, hp);
    }
  }

  /** What REMOVEBOX returns once both searches have landed, when the height's counter is above 1. */
  lemma RemoveBoxAtMany(b: Boxes, side: real, height: real, sp: Path, hp: Path, f: Fixup)
    requires Search(b.sides, side) == Some(sp) && IsNode(b.sides, sp)
    requires Search(NodeValue(b.sides, sp), height) == Some(hp) && IsNode(NodeValue(b.sides, sp), hp)
    requires NodeValue(NodeValue(b.sides, sp), hp) != 1
    ensures var heights := NodeValue(b.sides, sp); var c := NodeValue(heights, hp);
      RemoveBox(b, side, height, f) == Some((0, Boxes(SetValue(b.sides, sp, SetValue(heights, hp, c - 1)))))
  {
  }

  /** What REMOVEBOX returns once both searches have landed, when the height's last box goes. */
  lemma RemoveBoxAtLast(b: Boxes, side: real, height: real, sp: Path, hp: Path, f: Fixup)
    requires Search(b.sides, side) == Some(sp) && IsNode(b.sides, sp)
    requires Search(NodeValue(b.sides, sp), height) == Some(hp) && IsNode(NodeValue(b.sides, sp), hp)
    requires NodeValue(NodeValue(b.sides, sp), hp) == 1
    ensures var d2, d1 := Delete(SetValue(NodeValue(b.sides, sp), hp, 0), hp, f), Delete(b.sides, sp, f);
      var r := RemoveBox(b, side, height, f);
      (d2.None? ==> r.None?) &&
      (d2.Some? && IsEmpty(d2.value) ==> (r.Some? <==> d1.Some?) && (d1.Some? ==> r == Some((0, Boxes(d1.value))))) &&
      (d2.Some? && !IsEmpty(d2.value) ==> r == Some((0, Boxes(SetValue(b.sides, sp, d2.value)))))
  {
    var heights := NodeValue(b.sides, sp);
    assert NodeValue(heights, hp) - 1 == 0;
  }

  /** What REMOVEBOX returns once both searches have landed: None only when a deletion meets a sentinel sibling. */
  lemma RemoveBoxAt(b: Boxes, side: real, height: real, sp: Path, hp: Path, f: Fixup)
    requires Search(b.sides, side) == Some(sp) && IsNode(b.sides, sp)
    requires Search(NodeValue(b.sides, sp), height) == Some(hp) && IsNode(NodeValue(b.sides, sp), hp)
    ensures var heights := NodeValue(b.sides, sp);
      var c := NodeValue(heights, hp);
      var d2, d1 := Delete(SetValue(heights, hp, 0), hp, f), Delete(b.sides, sp, f);
      var r := RemoveBox(b, side, height, f);
      (c == 1 && d2.None? ==> r.None?) &&
      (c == 1 && d2.Some? && IsEmpty(d2.value) ==> (r.Some? <==> d1.Some?) && (d1.Some? ==> r == Some((0, Boxes(d1.value))))) &&
      (c == 1 && d2.Some? && !IsEmpty(d2.value) ==> r == Some((0, Boxes(SetValue(b.sides, sp, d2.value))))) &&
      (c != 1 ==> r == Some((0, Boxes(SetValue(b.sides, sp, SetValue(heights, hp, c - 1))))))
  {
    if NodeValue(NodeValue(b.sides, sp), hp) == 1 {
      RemoveBoxAtLast(b, side, height, sp, hp, f);
    } else {
      RemoveBoxAtMany(b, side, height, sp, hp, f);
    }
  }

  /** The facts Located gives about the side node sp and the height node hp below it. */
  predicate LocatedAt(b: Boxes, sp: Path, hp: Path) {
    Valid(b) && IsNode(b.sides, sp) &&
    ValidHeights(NodeValue(b.sides, sp)) &&
    Subtree(b.sides, sp).key in Stock(b) &&
    Stock(b)[Subtree(b.sides, sp).key] == Counts(NodeValue(b.sides, sp)) &&
    IsNode(NodeValue(b.sides, sp), hp)
  }

  /** Taking one of several boxes of a height decrements its counter. */
  lemma RemoveOneBox(b: Boxes, sp: Path, hp: Path)
    requires LocatedAt(b, sp, hp) && NodeValue(NodeValue(b.sides, sp), hp) > 1
    ensures var heights := NodeValue(b.sides, sp);
      var s, h, c := Subtree(b.sides, sp).key, Subtree(heights, hp).key, NodeValue(heights, hp);
      var b2 := Boxes(SetValue(b.sides, sp, SetValue(heights, hp, c - 1)));
      Valid(b2) && h in Stock(b)[s] && Stock(b2) == Stock(b)[s := Stock(b)[s][h := c - 1]]
  {
    var heights := NodeValue(b.sides, sp);
    var c := NodeValue(heights, hp);
    MapAtNode(heights, hp);
    HeightUpdate(heights, hp, c - 1);
    SideUpdate(b, sp, SetValue(heights, hp, c - 1));
  }

  /** Taking the last box of a height, when the side has other heights, drops that height. */
  lemma RemoveOneHeight(b: Boxes, sp: Path, hp: Path, f: Fixup)
    requires LocatedAt(b, sp, hp) && Delete(SetValue(NodeValue(b.sides, sp), hp, 0), hp, f).Some?
    requires !IsEmpty(Delete(SetValue(NodeValue(b.sides, sp), hp, 0), hp, f).value)
    ensures var heights := NodeValue(b.sides, sp);
      var s, h := Subtree(b.sides, sp).key, Subtree(heights, hp).key;
      var b2 := Boxes(SetValue(b.sides, sp, Delete(SetValue(heights, hp, 0), hp, f).value));
      Valid(b2) && Stock(b)[s].Keys != {h} && Stock(b2) == Stock(b)[s := Stock(b)[s] - {h}]
  {
    var heights := NodeValue(b.sides, sp);
    HeightRemove(heights, hp, f);
    SideUpdate(b, sp, Delete(SetValue(heights, hp, 0), hp, f).value);
  }

  /** Taking the last box of the last height of a side drops the side, unless unlinking it meets a sentinel sibling. */
  lemma RemoveLastHeight(b: Boxes, sp: Path, hp: Path, f: Fixup)
    requires LocatedAt(b, sp, hp) && Delete(SetValue(NodeValue(b.sides, sp), hp, 0), hp, f).Some?
    requires IsEmpty(Delete(SetValue(NodeValue(b.sides, sp), hp, 0), hp, f).value)
    ensures IsRedBlack(b.sides) ==> Delete(b.sides, sp, f).Some?
    ensures var heights := NodeValue(b.sides, sp);
      var s, h := Subtree(b.sides, sp).key, Subtree(heights, hp).key;
      var d := Delete(b.sides, sp, f);
      Stock(b)[s].Keys == {h} &&
      (d.Some? ==> Valid(Boxes(d.value)) && Stock(Boxes(d.value)) == Stock(b) - {s})
  {
    HeightRemove(NodeValue(b.sides, sp), hp, f);
    SideRemove(b, sp, f);
  }

  /**
   REMOVEBOX keeps the index valid whenever it returns; on an index that
   follows the red-black rules it never meets a sentinel sibling in
   tree_delete, whichever colour writes the deletion makes.
   */
  lemma RemoveBoxValid(b: Boxes, side: real, height: real, f: Fixup)
    requires Valid(b)
    ensures var r := RemoveBox(b, side, height, f);
      (RedBlackIndex(b) ==> r.Some?) && (r.Some? ==> Valid(r.value.1))
  {
    if FoundHeight(b, side, height).Some? {
      RemoveBoxFound(b, side, height, f);
    }
  }

  // ---------------------------------------------------------------------------
  // The colour rules under INSERTBOX and REMOVEBOX

  /** Under an index that follows the red-black rules, every height tree does. */
  lemma HeightsRedBlack(b: Boxes, sp: Path)
    requires RedBlackIndex(b) && IsNode(b.sides, sp)
    ensures IsRedBlack(NodeValue(b.sides, sp))
  {
    var h := NodeValue(b.sides, sp);
    assert h == Entries(b.sides)[Rank(b.sides, sp)].1;
    assert RedBlackHeights(h);
  }

  /** Writing a red-black height tree under a side keeps the colour rules. */
  lemma SideUpdateRedBlack(b: Boxes, sp: Path, h: Tree<int>)
    requires RedBlackIndex(b) && IsNode(b.sides, sp) && IsRedBlack(h)
    ensures RedBlackIndex(Boxes(SetValue(b.sides, sp, h)))
  {
    SetValueRedBlack(b.sides, sp, h);
    AllValuesUpdate(Entries(b.sides), Rank(b.sides, sp), Subtree(b.sides, sp).key, h, RedBlackHeights);
  }

  /** Adding a side with a red-black height tree keeps the colour rules. */
  lemma SideInsertRedBlack(b: Boxes, k: real, h: Tree<int>)
    requires Ordered(b.sides) && RedBlackIndex(b) && !HasNear(b.sides, k) && IsRedBlack(h)
    ensures RedBlackIndex(Boxes(InsertNew(b.sides, k, h)))
  {
    InsertNewMap(b.sides, k, h);
    InsertRedBlack(b.sides, k, h);
    AllValuesInsert(Entries(b.sides), k, h, RedBlackHeights);
  }

  /** With the textbook colour writes, unlinking a side succeeds and keeps the colour rules. */
  lemma SideRemoveRedBlack(b: Boxes, sp: Path)
    requires RedBlackIndex(b) && IsNode(b.sides, sp)
    ensures Delete(b.sides, sp, Textbook).Some?
    ensures RedBlackIndex(Boxes(Delete(b.sides, sp, Textbook).value))
  {
    DeleteRedBlack(b.sides, sp, Textbook);
    AllValuesRemove(Entries(b.sides), Rank(b.sides, sp), RedBlackHeights);
  }

  /** INSERTBOX keeps the colour rules of the side tree and of every height tree. */
  lemma InsertBoxRedBlack(b: Boxes, side: real, height: real)
    requires Valid(b) && RedBlackIndex(b)
    ensures RedBlackIndex(InsertBox(b, side, height))
  {
    match Search(b.sides, side)
    case None =>
      var e: Tree<int> := Init();
      InsertRedBlack(e, height, 1);
      SideInsertRedBlack(b, side, InsertNew(e, height, 1));
    case Some(sp) =>
      var heights := NodeValue(b.sides, sp);
      HeightsRedBlack(b, sp);
      match Search(heights, height)
      case Some(hp) =>
        SetValueRedBlack(heights, hp, NodeValue(heights, hp) + 1);
        SideUpdateRedBlack(b, sp, SetValue(heights, hp, NodeValue(heights, hp) + 1));
      case None =>
        InsertRedBlack(heights, height, 1);
        SideUpdateRedBlack(b, sp, InsertNew(heights, height, 1));
  }

  /**
   With the textbook colour writes in tree_delete, REMOVEBOX on an index that
   follows the red-black rules always returns, and the index it leaves
   follows them too.
   */
  lemma RemoveBoxRedBlack(b: Boxes, side: real, height: real)
    requires RedBlackIndex(b)
    ensures RemoveBox(b, side, height, Textbook).Some?
    ensures RedBlackIndex(RemoveBox(b, side, height, Textbook).value.1)
  {
    match Search(b.sides, side)
    case None =>
    case Some(sp) =>
      var heights := NodeValue(b.sides, sp);
      HeightsRedBlack(b, sp);
      match Search(heights, height)
      case None =>
      case Some(hp) =>
        var c := NodeValue(heights, hp);
        SetValueRedBlack(heights, hp, c - 1);
        RemoveBoxAt(b, side, height, sp, hp, Textbook);
        if c == 1 {
          DeleteRedBlack(SetValue(heights, hp, 0), hp, Textbook);
          var h2 := Delete(SetValue(heights, hp, 0), hp, Textbook).value;
          if IsEmpty(h2) {
            SideRemoveRedBlack(b, sp);
          } else {
            SideUpdateRedBlack(b, sp, h2);
          }
        } else {
          SideUpdateRedBlack(b, sp, SetValue(heights, hp, c - 1));
        }
  }

  // ---------------------------------------------------------------------------
  // INSERTBOX then REMOVEBOX

  /** Overwriting a value leaves tree_search's answer, and the key it lands on, as they were. */
  lemma SearchAfterSetValue<V>(t: Tree<V>, p: Path, v: V, key: real)
    requires IsNode(t, p)
    ensures Search(SetValue(t, p, v), key) == Search(t, key)
    ensures Search(t, key).Some? ==>
      Subtree(SetValue(t, p, v), Search(t, key).value).key == Subtree(t, Search(t, key).value).key
  {
    SetValueKeepsKeys(t, p, v);
    SameKeysSym(SetValue(t, p, v), t);
    SearchSameKeys(SetValue(t, p, v), t, key);
    if Search(t, key).Some? {
      SameKeysAt(t, SetValue(t, p, v), Search(t, key).value);
    }
  }

  /** When an added key is the only key near `key`, tree_search lands on it. */
  lemma FoundAdded(found: real, added: real, key: real, others: set<real>)
    requires found in others + {added} && FloatEqual(key, found)
    requires forall k :: k in others ==> !FloatEqual(key, k)
    ensures found == added
  {
  }

  /** After INSERTBOX of a new side, the searches of REMOVEBOX land on that side and that height. */
  lemma AfterNewSide(b: Boxes, side: real, height: real)
    requires Valid(b) && FoundSide(b, side).None?
    ensures var b1 := InsertBox(b, side, height);
      Valid(b1) && FoundSide(b1, side) == Some(side) && FoundHeight(b1, side, height) == Some(height) &&
      side !in Stock(b) && Stock(b1) == Stock(b)[side := map[height := 1]]
  {
    var b1 := InsertBox(b, side, height);
    InsertBoxNewSide(b, side, height);
    StockKeys(b);
    StockKeys(b1);
    assert side in Keys(b1.sides) && FloatEqual(side, side);
    FoundAdded(FoundSide(b1, side).value, side, side, Keys(b.sides));
    assert FloatEqual(height, height);
    FoundOnlyNear(b1, side, height, height);
  }

  /** REMOVEBOX of the only box of a side drops the side. */
  lemma RemoveBoxLastOfSide(b: Boxes, side: real, height: real, s: real, h: real, f: Fixup)
    requires Valid(b) && FoundSide(b, side) == Some(s) && FoundHeight(b, side, height) == Some(h)
    requires Stock(b)[s][h] == 1 && Stock(b)[s].Keys == {h}
    ensures var r := RemoveBox(b, side, height, f);
      (RedBlackIndex(b) ==> r.Some?) && (r.Some? ==> r.value.0 == 0 && Stock(r.value.1) == Stock(b) - {s})
  {
    RemoveBoxFound(b, side, height, f);
  }

  /** The round trip when the side is new. */
  lemma InsertThenRemoveNewSide(b: Boxes, side: real, height: real, f: Fixup)
    requires Valid(b) && FoundSide(b, side).None?
    ensures var r := RemoveBox(InsertBox(b, side, height), side, height, f);
      (RedBlackIndex(b) ==> r.Some?) && (r.Some? ==> r.value.0 == 0 && Stock(r.value.1) == Stock(b))
  {
    var b1 := InsertBox(b, side, height);
    AfterNewSide(b, side, height);
    if RedBlackIndex(b) {
      InsertBoxRedBlack(b, side, height);
    }
    RemoveBoxLastOfSide(b1, side, height, side, height, f);
    RestoreSide(Stock(b), side, map[height := 1]);
  }

  /** Adding a fresh side and dropping it again gives the stock back. */
  lemma RestoreSide(m: map<real, map<real, int>>, s: real, v: map<real, int>)
    requires s !in m
    ensures m[s := v] - {s} == m
  {
  }

  /** tree_search under the side found lands on h when h is the only stocked height near `height`. */
  lemma FoundOnlyNear(b: Boxes, side: real, height: real, h: real)
    requires Valid(b) && FoundSide(b, side).Some?
    requires h in Stock(b)[FoundSide(b, side).value] && FloatEqual(height, h)
    requires forall k :: k in Stock(b)[FoundSide(b, side).value] && k != h ==> !FloatEqual(height, k)
    ensures FoundHeight(b, side, height) == Some(h)
  {
  }

  /** After INSERTBOX of a new height under a found side, the searches of REMOVEBOX land on that side and that height. */
  lemma AfterNewHeight(b: Boxes, side: real, height: real)
    requires Valid(b) && FoundSide(b, side).Some? && FoundHeight(b, side, height).None?
    ensures var b1, s := InsertBox(b, side, height), FoundSide(b, side).value;
      Valid(b1) && FoundSide(b1, side) == Some(s) && FoundHeight(b1, side, height) == Some(height) &&
      height !in Stock(b)[s] && Stock(b1) == Stock(b)[s := Stock(b)[s][height := 1]] &&
      Stock(b1)[s].Keys != {height}
  {
    var b1 := InsertBox(b, side, height);
    var s := FoundSide(b, side).value;
    var stocked := Stock(b)[s];
    InsertBoxNewHeight(b, side, height);
    assert Stock(b1)[s] == stocked[height := 1];
    assert height !in stocked;
    var sp := Search(b.sides, side).value;
    var heights := NodeValue(b.sides, sp);
    FoundHeightFacts(b, side, height, sp);
    assert stocked != map[] by {
      SideAtNode(b, sp);
      AsMapKeys(Entries(heights));
      NoEntriesNoKeys(heights);
    }
    assert FoundSide(b1, side) == Some(s) by {
      assert Search(heights, height).None?;
      assert b1 == Boxes(SetValue(b.sides, sp, InsertNew(heights, height, 1)));
      FoundSideAfterSetValue(b, sp, InsertNew(heights, height, 1), side);
    }
    FoundOnlyNear(b1, side, height, height);
    assert Stock(b1)[s].Keys != {height} by {
      var k :| k in stocked;
      assert k in Stock(b1)[s] && k != height;
    }
  }

  /** REMOVEBOX of one of several heights whose counter is 1 drops that height only. */
  lemma RemoveBoxLastOfHeight(b: Boxes, side: real, height: real, s: real, h: real, f: Fixup)
    requires Valid(b) && FoundSide(b, side) == Some(s) && FoundHeight(b, side, height) == Some(h)
    requires Stock(b)[s][h] == 1 && Stock(b)[s].Keys != {h}
    ensures var r := RemoveBox(b, side, height, f);
      (RedBlackIndex(b) ==> r.Some?) &&
      (r.Some? ==> r.value.0 == 0 && Stock(r.value.1) == Stock(b)[s := Stock(b)[s] - {h}])
  {
    RemoveBoxFound(b, side, height, f);
  }

  /** The round trip when the side is found but the height is new. */
  lemma InsertThenRemoveNewHeight(b: Boxes, side: real, height: real, f: Fixup)
    requires Valid(b) && FoundSide(b, side).Some? && FoundHeight(b, side, height).None?
    ensures var r := RemoveBox(InsertBox(b, side, height), side, height, f);
      (RedBlackIndex(b) ==> r.Some?) && (r.Some? ==> r.value.0 == 0 && Stock(r.value.1) == Stock(b))
  {
    var b1, s := InsertBox(b, side, height), FoundSide(b, side).value;
    AfterNewHeight(b, side, height);
    if RedBlackIndex(b) {
      InsertBoxRedBlack(b, side, height);
    }
    RemoveBoxLastOfHeight(b1, side, height, s, height, f);
    RestoreHeight(Stock(b), s, height);
  }

  /** Adding a fresh height to a side and taking it out again gives the stock back. */
  lemma RestoreHeight(m: map<real, map<real, int>>, s: real, h: real)
    requires s in m && h !in m[s]
    ensures m[s := m[s][h := 1]][s := m[s][h := 1] - {h}] == m
  {
    assert m[s][h := 1] - {h} == m[s];
  }

  /** A side written back in place is still the side found. */
  lemma FoundSideAfterSetValue(b: Boxes, sp: Path, v: Tree<int>, side: real)
    requires IsNode(b.sides, sp)
    ensures FoundSide(Boxes(SetValue(b.sides, sp, v)), side) == FoundSide(b, side)
  {
    SearchAfterSetValue(b.sides, sp, v, side);
  }

  /** After INSERTBOX of a stocked height, the searches of REMOVEBOX still land on the same nodes. */
  lemma SearchesAfterMore(b: Boxes, side: real, height: real)
    requires Valid(b) && FoundHeight(b, side, height).Some?
    ensures var b1 := InsertBox(b, side, height);
      FoundSide(b1, side) == FoundSide(b, side) && FoundHeight(b1, side, height) == FoundHeight(b, side, height)
  {
    var b1 := InsertBox(b, side, height);
    var sp, hp := Located(b, side, height);
    EntryAtRank(NodeValue(b.sides, sp), hp);
    assert Stocked(NodeValue(NodeValue(b.sides, sp), hp));
    var heights := NodeValue(b.sides, sp);
    var heights1 := SetValue(heights, hp, NodeValue(heights, hp) + 1);
    SearchAfterSetValue(b.sides, sp, heights1, side);
    SearchAfterSetValue(heights, hp, NodeValue(heights, hp) + 1, height);
    assert NodeValue(b1.sides, sp) == heights1;
  }

  /** After INSERTBOX of a stocked height, the searches of REMOVEBOX land on the same side and height. */
  lemma AfterMore(b: Boxes, side: real, height: real)
    requires Valid(b) && FoundHeight(b, side, height).Some?
    ensures var b1, s, h := InsertBox(b, side, height), FoundSide(b, side).value, FoundHeight(b, side, height).value;
      Valid(b1) && FoundSide(b1, side) == Some(s) && FoundHeight(b1, side, height) == Some(h) &&
      h in Stock(b)[s] && Stock(b)[s][h] >= 1 &&
      Stock(b1) == Stock(b)[s := Stock(b)[s][h := Stock(b)[s][h] + 1]]
  {
    var sp, hp := Located(b, side, height);
    EntryAtRank(NodeValue(b.sides, sp), hp);
    assert Stocked(NodeValue(NodeValue(b.sides, sp), hp));
    InsertBoxMore(b, side, height);
    InsertBoxValid(b, side, height);
    SearchesAfterMore(b, side, height);
  }

  /** REMOVEBOX of a height whose counter is above 1 decrements it. */
  lemma RemoveBoxOneOfMany(b: Boxes, side: real, height: real, s: real, h: real, f: Fixup)
    requires Valid(b) && FoundSide(b, side) == Some(s) && FoundHeight(b, side, height) == Some(h)
    requires Stock(b)[s][h] > 1
    ensures RemoveBox(b, side, height, f).Some?
    ensures RemoveBox(b, side, height, f).value.0 == 0
    ensures Stock(RemoveBox(b, side, height, f).value.1) == Stock(b)[s := Stock(b)[s][h := Stock(b)[s][h] - 1]]
  {
    RemoveBoxFound(b, side, height, f);
  }

  /** The round trip when both side and height are found: nothing is deleted, so it always returns. */
  lemma InsertThenRemoveMore(b: Boxes, side: real, height: real, f: Fixup)
    requires Valid(b) && FoundHeight(b, side, height).Some?
    ensures RemoveBox(InsertBox(b, side, height), side, height, f).Some?
    ensures RemoveBox(InsertBox(b, side, height), side, height, f).value.0 == 0
    ensures Stock(RemoveBox(InsertBox(b, side, height), side, height, f).value.1) == Stock(b)
  {
    AfterMore(b, side, height);
    RemoveAgainMore(b, InsertBox(b, side, height), side, height, f);
  }

  /** REMOVEBOX on an index with one more box of the found side and height than b gives b's stock back. */
  lemma RemoveAgainMore(b: Boxes, b1: Boxes, side: real, height: real, f: Fixup)
    requires Valid(b) && FoundHeight(b, side, height).Some?
    requires var s, h := FoundSide(b, side).value, FoundHeight(b, side, height).value;
      Valid(b1) && FoundSide(b1, side) == Some(s) && FoundHeight(b1, side, height) == Some(h) &&
      h in Stock(b)[s] && Stock(b)[s][h] >= 1 &&
      Stock(b1) == Stock(b)[s := Stock(b)[s][h := Stock(b)[s][h] + 1]]
    ensures RemoveBox(b1, side, height, f).Some?
    ensures RemoveBox(b1, side, height, f).value.0 == 0 && Stock(RemoveBox(b1, side, height, f).value.1) == Stock(b)
  {
    var s, h := FoundSide(b, side).value, FoundHeight(b, side, height).value;
    RestoreCount(Stock(b), Stock(b1), s, h);
    RemoveBoxOneOfMany(b1, side, height, s, h, f);
  }

  /** Incrementing a counter and decrementing it again gives the stock back. */
  lemma RestoreCount(m: map<real, map<real, int>>, m1: map<real, map<real, int>>, s: real, h: real)
    requires s in m && h in m[s] && m[s][h] >= 1 && m1 == m[s := m[s][h := m[s][h] + 1]]
    ensures s in m1 && h in m1[s] && m1[s][h] > 1
    ensures m1[s := m1[s][h := m1[s][h] - 1]] == m
  {
    assert m[s][h := m[s][h] + 1][h := m[s][h]] == m[s];
  }

  /**
   REMOVEBOX after INSERTBOX of the same side and height finds the box again
   and gives back the stock as it was, whenever it returns; on an index that
   follows the red-black rules it always returns.
   */
  lemma InsertThenRemove(b: Boxes, side: real, height: real, f: Fixup)
    requires Valid(b)
    ensures var r := RemoveBox(InsertBox(b, side, height), side, height, f);
      (RedBlackIndex(b) ==> r.Some?) && (r.Some? ==> r.value.0 == 0 && Stock(r.value.1) == Stock(b))
  {
    if FoundSide(b, side).None? {
      InsertThenRemoveNewSide(b, side, height, f);
    } else if FoundHeight(b, side, height).None? {
      InsertThenRemoveNewHeight(b, side, height, f);
    } else {
      InsertThenRemoveMore(b, side, height, f);
    }
  }
}
