/**
 The box index of boxes.c: an outer red-black tree keyed by side whose
 values are inner red-black trees keyed by height, whose values count the
 boxes of that side and height.

 In the C code an outer value is a pointer to the inner tree, and an inner
 value is a pointer to the counter, so the updates through those pointers
 show up here as new values written into the outer and inner trees.
 */
module Boxes {
  import opened Options
  import opened Sequences
  import opened RbTree
  import opened RbQuery
  import opened RbInsert
  import opened RbDelete
  import opened RbColors

  /** boxes_t: the side tree. */
  datatype Boxes = Boxes(sides: Tree<Tree<int>>)

  /** boxes_init. */
  function BoxesInit(): (b: Boxes)
    ensures Valid(b) && RedBlackIndex(b) && Stock(b) == map[]
  {
    Boxes(Init())
  }

  // ---------------------------------------------------------------------------
  // Invariant and abstract view

  /** No two keys lie within Epsilon of each other. */
  predicate Separated<V>(es: seq<(real, V)>) {
    forall i, j :: 0 <= i < j < |es| ==> !FloatEqual(es[i].0, es[j].0)
  }

  /** A counter of stocked boxes. */
  predicate Stocked(count: int) {
    count >= 1
  }

  /** A well-formed height tree: ordered, separated, not empty, every counter at least 1. */
  predicate ValidHeights(h: Tree<int>) {
    var es := Entries(h);
    Ordered(h) && Separated(es) && es != [] && AllValues(es, Stocked)
  }

  /**
   The invariant INSERTBOX and REMOVEBOX keep. It says nothing of colours:
   the deletions of REMOVEBOX need not keep the red-black rules.
   */
  predicate Valid(b: Boxes) {
    var es := Entries(b.sides);
    Ordered(b.sides) && Separated(es) && AllValues(es, ValidHeights)
  }

  /** A height tree that follows the red-black rules. */
  predicate RedBlackHeights(h: Tree<int>) {
    IsRedBlack(h)
  }

  /** The side tree and every height tree follow the red-black rules. */
  predicate RedBlackIndex(b: Boxes) {
    IsRedBlack(b.sides) && AllValues(Entries(b.sides), RedBlackHeights)
  }

  /** The counters of one height tree, by height. */
  function Counts(h: Tree<int>): map<real, int> {
    AsMap(Entries(h))
  }

  /** The boxes in stock: side to (height to number of boxes). */
  function Stock(b: Boxes): map<real, map<real, int>> {
    Lift(AsMap(Entries(b.sides)))
  }

  /** Side to height tree, read as side to counters. */
  function Lift(m: map<real, Tree<int>>): map<real, map<real, int>> {
    map s | s in m :: Counts(m[s])
  }

  // ---------------------------------------------------------------------------
  // The searches INSERTBOX and REMOVEBOX start with

  /** The stocked side tree_search finds for `side`: some side within Epsilon, if there is one. */
  function FoundSide(b: Boxes, side: real): (r: Option<real>)
    ensures r.Some? ==> r.value in Keys(b.sides) && FloatEqual(side, r.value)
    ensures r.None? <==> !HasNear(b.sides, side)
    ensures Valid(b) && r.Some? ==> r.value in Stock(b)
  {
    match Search(b.sides, side)
    case None => None
    case Some(sp) =>
      EntryAtRank(b.sides, sp);
      assert Subtree(b.sides, sp).key in Keys(b.sides);
      if Valid(b) then StockAt(b, Rank(b.sides, sp)); Some(NodeKey(b.sides, sp))
      else Some(NodeKey(b.sides, sp))
  }

  /**
   The stocked height tree_search then finds for `height` under the side
   found: some height within Epsilon, if there is one.
   */
  function FoundHeight(b: Boxes, side: real, height: real): (r: Option<real>)
    ensures r.Some? ==> FoundSide(b, side).Some? && FloatEqual(height, r.value)
    ensures Valid(b) && r.Some? ==> r.value in Stock(b)[FoundSide(b, side).value]
    ensures Valid(b) && FoundSide(b, side).Some? ==>
      (r.None? <==> forall h :: h in Stock(b)[FoundSide(b, side).value] ==> !FloatEqual(height, h))
  {
    match Search(b.sides, side)
    case None => None
    case Some(sp) =>
      var heights := NodeValue(b.sides, sp);
      FoundHeightFacts(b, side, height, sp);
      match Search(heights, height)
      case None => None
      case Some(hp) => Some(NodeKey(heights, hp))
  }

  lemma FoundHeightFacts(b: Boxes, side: real, height: real, sp: Path)
    requires Search(b.sides, side) == Some(sp)
    ensures Valid(b) ==> FoundSide(b, side) == Some(Subtree(b.sides, sp).key)
    ensures Valid(b) ==> Stock(b)[Subtree(b.sides, sp).key].Keys == Keys(NodeValue(b.sides, sp))
  {
    if Valid(b) {
      EntryAtRank(b.sides, sp);
      StockAt(b, Rank(b.sides, sp));
    }
  }

  // ---------------------------------------------------------------------------
  // INSERTBOX

  /**
   tree_insert of a key that tree_search did not find: no key lies within
   Epsilon, so the exact-duplicate check of tree_insert cannot fire.
   */
  function InsertNew<V>(t: Tree<V>, key: real, value: V): (r: Tree<V>)
    requires !HasNear(t, key)
    ensures Insert(t, key, value) == Some(r)
  {
    assert key in Keys(t) ==> HasNear(t, key);
    Insert(t, key, value).value
  }

  /**
   INSERTBOX(side, height): a new side gets a height tree holding one box of
   that height; under a side found within Epsilon, a height found within
   Epsilon has its counter incremented, and a new height starts at 1.
   The effect on Stock is stated in module BoxUpdates, one lemma per path:
   InsertBoxNewSide, InsertBoxNewHeight and InsertBoxMore; InsertBoxValid
   states that Valid is kept.
   */
  function InsertBox(b: Boxes, side: real, height: real): (r: Boxes)
    ensures Search(b.sides, side).None? ==> Search(r.sides, side).Some?
  {
    match Search(b.sides, side)
    case None =>
      var heights := InsertNew(Init(), height, 1);
      var r := Boxes(InsertNew(b.sides, side, heights));
      InsertFindsNew(b.sides, side, heights);
      r
    case Some(sp) =>
      var heights := NodeValue(b.sides, sp);
      match Search(heights, height)
      case Some(hp) =>
        Boxes(SetValue(b.sides, sp, SetValue(heights, hp, NodeValue(heights, hp) + 1)))
      case None =>
        Boxes(SetValue(b.sides, sp, InsertNew(heights, height, 1)))
  }

  /** After inserting a key, the tree holds a key within Epsilon of it. */
  lemma InsertFindsNew<V>(t: Tree<V>, key: real, value: V)
    requires !HasNear(t, key)
    ensures HasNear(InsertNew(t, key, value), key)
  {
    var r := InsertNew(t, key, value);
    assert key in Keys(r) && FloatEqual(key, key);
  }

  // ---------------------------------------------------------------------------
  // REMOVEBOX

  /**
   REMOVEBOX(side, height): -1 and nothing changes when no side or no height
   lies within Epsilon; otherwise 0, the counter drops by one, a counter that
   reaches 0 takes its height out and a height tree that becomes empty takes
   its side out. tree_delete runs with the colour writes `f`: AsWritten is
   boxes.c. None is a deletion that reads the sentinel's NULL links, which an
   index following the red-black rules never meets (BoxUpdates.RemoveBoxValid)
   but the colour writes of trees.c can lead to (BoxCrash.RemoveBoxCrash).
   */
  function RemoveBox(b: Boxes, side: real, height: real, f: Fixup): (r: Option<(int, Boxes)>)
    ensures var found := Search(b.sides, side).Some? && Search(NodeValue(b.sides, Search(b.sides, side).value), height).Some?;
      (!found ==> r == Some((-1, b))) && (found && r.Some? ==> r.value.0 == 0)
  {
    match Search(b.sides, side)
    case None => Some((-1, b))
    case Some(sp) =>
      var heights := NodeValue(b.sides, sp);
      match Search(heights, height)
      case None => Some((-1, b))
      case Some(hp) =>
        var count := NodeValue(heights, hp) - 1;
        var heights1 := SetValue(heights, hp, count);
        if count == 0 then
          match Delete(heights1, hp, f)
          case None => None
          case Some(heights2) =>
            if IsEmpty(heights2) then
              match Delete(b.sides, sp, f)
              case None => None
              case Some(sides2) => Some((0, Boxes(sides2)))
            else Some((0, Boxes(SetValue(b.sides, sp, heights2))))
        else Some((0, Boxes(SetValue(b.sides, sp, heights1))))
  }

  // ---------------------------------------------------------------------------
  // boxes_find_ub, GETBOX, CHECKBOX

  /** The volume side * side * height of a (side, height) pair. */
  function Volume(c: (real, real)): real {
    c.0 * c.0 * c.1
  }

  /** The height tree_ub finds for `height` in a height tree (tree_node_get_key of its node). */
  function FitIn(heights: Tree<int>, height: real): (r: Option<real>)
    ensures r.Some? ==> r.value in Keys(heights)
    ensures Ordered(heights) ==> (r.None? <==> forall h :: h in Keys(heights) ==> h < height && !FloatEqual(h, height))
    ensures Ordered(heights) && r.Some? ==> FloatEqual(r.value, height) || height < r.value
  {
    match Ub(heights, height)
    case None => None
    case Some(hp) => Some(NodeKey(heights, hp))
  }

  /** A new pair is kept when nothing is kept yet or its volume is strictly smaller. */
  predicate Better(best: Option<(real, real)>, c: (real, real)) {
    best.None? || Volume(c) < Volume(best.value)
  }

  /**
   One round of the do-while loop of boxes_find_ub and the rest of the loop:
   the side node at sp offers the height tree_ub finds for `height`; it is
   kept when it is the first or strictly smaller in volume, and with
   `findFirst` the scan stops at the first kept pair. `best` is the pair kept
   so far.
   */
  function Scan(sides: Tree<Tree<int>>, sp: Path, height: real, findFirst: bool, best: Option<(real, real)>): (r: Option<(real, real)>)
    requires IsNode(sides, sp)
    ensures best.Some? ==> r.Some? && Volume(r.value) <= Volume(best.value)
    decreases |Entries(sides)| - Rank(sides, sp)
  {
    var fs := NodeKey(sides, sp);
    var fit := FitIn(NodeValue(sides, sp), height);
    var keep := fit.Some? && Better(best, (fs, fit.value));
    var best' := if keep then Some((fs, fit.value)) else best;
    if keep && findFirst then best'
    else
      match Successor(sides, sp)
      case None => best'
      case Some(next) => Scan(sides, next, height, findFirst, best')
  }

  /** boxes_find_ub: start at tree_ub(side) in the side tree; None is the -1 return. */
  function FindUb(b: Boxes, side: real, height: real, findFirst: bool): (r: Option<(real, real)>)
    ensures Ub(b.sides, side).None? ==> r.None?
  {
    match Ub(b.sides, side)
    case None => None
    case Some(sp) => Scan(b.sides, sp, height, findFirst, None)
  }

  /** GETBOX: the smallest-volume box found; None is the -1 return. */
  function GetBox(b: Boxes, side: real, height: real): (r: Option<(real, real)>)
    ensures Valid(b) && r.Some? ==>
      r.value.0 in Stock(b) && r.value.1 in Stock(b)[r.value.0] &&
      (FloatEqual(r.value.0, side) || side < r.value.0) &&
      (FloatEqual(r.value.1, height) || height < r.value.1)
  {
    if Valid(b) then GetBoxFits(b, side, height); FindUb(b, side, height, false)
    else FindUb(b, side, height, false)
  }

  /** CHECKBOX: whether a box is found; the scan stops at the first fitting side. */
  function CheckBox(b: Boxes, side: real, height: real): (r: bool)
    ensures r <==> GetBox(b, side, height).Some?
  {
    CheckBoxAgrees(b, side, height);
    FindUb(b, side, height, true).Some?
  }

  // ---------------------------------------------------------------------------
  // What the scan finds

  /**
   The candidates of a scan over the side entries es: for each side, in
   order, the height tree_ub finds in its height tree, when there is one.
   */
  function Fits(es: seq<(real, Tree<int>)>, height: real): (cs: seq<(real, real)>)
    ensures |cs| <= |es|
  {
    if es == [] then []
    else
      var here := match FitIn(es[0].1, height) case None => [] case Some(fh) => [(es[0].0, fh)];
      here + Fits(es[1..], height)
  }

  /** The candidates GETBOX chooses from: the side entries from tree_ub(side) on. */
  function Candidates(b: Boxes, side: real, height: real): seq<(real, real)> {
    match Ub(b.sides, side)
    case None => []
    case Some(sp) => EntryAtRank(b.sides, sp); Fits(Entries(b.sides)[Rank(b.sides, sp)..], height)
  }

  /** Index i holds the smallest volume of cs, and every earlier entry is strictly larger. */
  predicate IsFirstMin(cs: seq<(real, real)>, i: int) {
    0 <= i < |cs| &&
    (forall j :: 0 <= j < |cs| ==> Volume(cs[i]) <= Volume(cs[j])) &&
    (forall j :: 0 <= j < i ==> Volume(cs[i]) < Volume(cs[j]))
  }

  /** A candidate smaller than the kept pair: the first minimum moves one place right. */
  lemma FirstMinKeep(m: (real, real), c: (real, real), tail: seq<(real, real)>, i': nat)
    requires Volume(c) < Volume(m) && IsFirstMin([c] + tail, i')
    ensures IsFirstMin([m] + [c] + tail, i' + 1) && ([m] + [c] + tail)[i' + 1] == ([c] + tail)[i']
  {
    var cs, cs' := [m] + [c] + tail, [c] + tail;
    assert cs == [m] + cs';
    assert cs'[0] == c;
    var v := Volume(cs'[i']);
    assert v <= Volume(c);
    forall j | 0 <= j < |cs| ensures v <= Volume(cs[j]) {
      if j > 0 {
        assert cs[j] == cs'[j - 1];
      }
    }
    forall j | 0 <= j < i' + 1 ensures v < Volume(cs[j]) {
      if j > 0 {
        assert cs[j] == cs'[j - 1];
      }
    }
  }

  /** A candidate not smaller than the kept pair: it never becomes the first minimum. */
  lemma FirstMinSkip(m: (real, real), c: (real, real), tail: seq<(real, real)>, i': nat)
    requires Volume(m) <= Volume(c) && IsFirstMin([m] + tail, i')
    ensures var i := if i' == 0 then 0 else i' + 1;
      IsFirstMin([m] + [c] + tail, i) && ([m] + [c] + tail)[i] == ([m] + tail)[i']
  {
    var cs, cs' := [m] + [c] + tail, [m] + tail;
    var i := if i' == 0 then 0 else i' + 1;
    assert cs[0] == m && cs[1] == c && cs'[0] == m;
    assert cs[i] == cs'[i'];
    var v := Volume(cs'[i']);
    assert v <= Volume(m);
    forall j | 0 <= j < |cs| ensures v <= Volume(cs[j]) {
      if j > 1 {
        assert cs[j] == cs'[j - 1];
      }
    }
    forall j | 0 <= j < i ensures v < Volume(cs[j]) {
      if j > 1 {
        assert cs[j] == cs'[j - 1];
      } else if j == 1 {
        assert v < Volume(cs'[0]);
      }
    }
  }

  /** One round of the scan in terms of the side entries. */
  lemma ScanUnfold(sides: Tree<Tree<int>>, sp: Path, height: real, findFirst: bool, best: Option<(real, real)>)
    requires IsNode(sides, sp)
    ensures Rank(sides, sp) < |Entries(sides)|
    ensures var e := Entries(sides)[Rank(sides, sp)];
      var fit := FitIn(e.1, height);
      var keep := fit.Some? && Better(best, (e.0, fit.value));
      var best' := if keep then Some((e.0, fit.value)) else best;
      Scan(sides, sp, height, findFirst, best) ==
        if keep && findFirst then best'
        else match Successor(sides, sp)
          case None => best'
          case Some(next) => Scan(sides, next, height, findFirst, best')
  {
    EntryAtRank(sides, sp);
  }

  /** The candidates from index k on: the one side k offers, then those from k + 1 on. */
  lemma FitsUnfold(es: seq<(real, Tree<int>)>, k: nat, height: real)
    requires k < |es|
    ensures Fits(es[k..], height) ==
      (match FitIn(es[k].1, height) case None => [] case Some(fh) => [(es[k].0, fh)]) + Fits(es[k + 1..], height)
  {
    assert es[k..][0] == es[k] && es[k..][1..] == es[k + 1..];
  }

  /** The kept pair after offering the candidates cs in order, starting from `best`. */
  function Pick(cs: seq<(real, real)>, best: Option<(real, real)>): Option<(real, real)> {
    if cs == [] then best
    else Pick(cs[1..], if Better(best, cs[0]) then Some(cs[0]) else best)
  }

  /** Without findFirst the scan from sp offers exactly the candidates from sp on. */
  lemma {:induction false} ScanPicks(sides: Tree<Tree<int>>, sp: Path, height: real, best: Option<(real, real)>)
    requires IsNode(sides, sp)
    ensures Rank(sides, sp) < |Entries(sides)|
    ensures Scan(sides, sp, height, false, best) == Pick(Fits(Entries(sides)[Rank(sides, sp)..], height), best)
    decreases |Entries(sides)| - Rank(sides, sp)
  {
    var es := Entries(sides);
    var k := Rank(sides, sp);
    ScanUnfold(sides, sp, height, false, best);
    FitsUnfold(es, k, height);
    var fit := FitIn(es[k].1, height);
    var keep := fit.Some? && Better(best, (es[k].0, fit.value));
    var best' := if keep then Some((es[k].0, fit.value)) else best;
    var tail := Fits(es[k + 1..], height);
    assert Pick(Fits(es[k..], height), best) == Pick(tail, best') by {
      if fit.Some? {
        var c := (es[k].0, fit.value);
        var cs := [c] + tail;
        assert cs[0] == c && cs[1..] == tail;
        assert Pick(cs, best) == Pick(tail, if Better(best, c) then Some(c) else best);
      } else {
        assert [] + tail == tail;
      }
    }
    match Successor(sides, sp)
    case None =>
      assert es[k + 1..] == [];
    case Some(next) =>
      ScanPicks(sides, next, height, best');
  }

  /** Starting from a kept pair m, Pick ends with the first minimum of m followed by cs. */
  lemma {:induction false} PickFirstMin(cs: seq<(real, real)>, m: (real, real)) returns (i: nat)
    ensures IsFirstMin([m] + cs, i) && Pick(cs, Some(m)) == Some(([m] + cs)[i])
    decreases |cs|
  {
    if cs == [] {
      i := 0;
    } else {
      var c, tail := cs[0], cs[1..];
      assert cs == [c] + tail;
      assert [m] + cs == [m] + [c] + tail;
      if Volume(c) < Volume(m) {
        var i' := PickFirstMin(tail, c);
        FirstMinKeep(m, c, tail, i');
        i := i' + 1;
      } else {
        var i' := PickFirstMin(tail, m);
        FirstMinSkip(m, c, tail, i');
        i := if i' == 0 then 0 else i' + 1;
      }
    }
  }

  /** Starting from nothing, Pick fails on no candidates and otherwise ends with their first minimum. */
  lemma {:induction false} PickFromNone(cs: seq<(real, real)>) returns (i: nat)
    ensures (cs != [] ==> IsFirstMin(cs, i)) && Pick(cs, None) == (if cs == [] then None else Some(cs[i]))
  {
    if cs == [] {
      i := 0;
    } else {
      assert [cs[0]] + cs[1..] == cs;
      i := PickFirstMin(cs[1..], cs[0]);
    }
  }

  /** From sp on, with nothing kept yet, the scan picks the first minimum of the candidates, and fails when there are none. */
  lemma ScanFromNone(sides: Tree<Tree<int>>, sp: Path, height: real) returns (i: nat)
    requires IsNode(sides, sp)
    ensures Rank(sides, sp) < |Entries(sides)|
    ensures var cs := Fits(Entries(sides)[Rank(sides, sp)..], height);
      (cs != [] ==> IsFirstMin(cs, i)) &&
      Scan(sides, sp, height, false, None) == (if cs == [] then None else Some(cs[i]))
  {
    ScanPicks(sides, sp, height, None);
    i := PickFromNone(Fits(Entries(sides)[Rank(sides, sp)..], height));
  }

  /** With findFirst, the scan stops at the first candidate. */
  lemma {:induction false} ScanFirstFit(sides: Tree<Tree<int>>, sp: Path, height: real)
    requires IsNode(sides, sp)
    ensures Rank(sides, sp) < |Entries(sides)|
    ensures var cs := Fits(Entries(sides)[Rank(sides, sp)..], height);
      Scan(sides, sp, height, true, None) == (if cs == [] then None else Some(cs[0]))
    decreases |Entries(sides)| - Rank(sides, sp)
  {
    var es := Entries(sides);
    var k := Rank(sides, sp);
    ScanUnfold(sides, sp, height, true, None);
    FitsUnfold(es, k, height);
    if FitIn(es[k].1, height).None? {
      match Successor(sides, sp)
      case None =>
        assert es[k + 1..] == [];
      case Some(next) =>
        ScanFirstFit(sides, next, height);
    }
  }

  /**
   GETBOX returns the first candidate of smallest volume, and fails exactly
   when there is no candidate.
   */
  lemma GetBoxFirstMin(b: Boxes, side: real, height: real) returns (i: nat)
    ensures var cs := Candidates(b, side, height);
      (cs != [] ==> IsFirstMin(cs, i)) &&
      GetBox(b, side, height) == (if cs == [] then None else Some(cs[i]))
  {
    i := FindUbFirstMin(b, side, height);
  }

  lemma FindUbFirstMin(b: Boxes, side: real, height: real) returns (i: nat)
    ensures var cs := Candidates(b, side, height);
      (cs != [] ==> IsFirstMin(cs, i)) &&
      FindUb(b, side, height, false) == (if cs == [] then None else Some(cs[i]))
  {
    match Ub(b.sides, side)
    case None =>
      i := 0;
    case Some(sp) =>
      i := ScanFromNone(b.sides, sp, height);
  }

  /** The j-th candidate comes from a side entry whose height tree has a fit. */
  lemma {:induction false} FitsAt(es: seq<(real, Tree<int>)>, height: real, j: nat) returns (idx: nat)
    requires j < |Fits(es, height)|
    ensures idx < |es| && FitIn(es[idx].1, height).Some?
    ensures Fits(es, height)[j] == (es[idx].0, FitIn(es[idx].1, height).value)
    decreases |es|
  {
    assert es != [];
    if FitIn(es[0].1, height).Some? {
      if j == 0 {
        idx := 0;
      } else {
        var idx' := FitsAt(es[1..], height, j - 1);
        idx := idx' + 1;
      }
    } else {
      var idx' := FitsAt(es[1..], height, j);
      idx := idx' + 1;
    }
  }

  /** Every side entry whose height tree has a fit gives a candidate. */
  lemma {:induction false} FitsComplete(es: seq<(real, Tree<int>)>, height: real, idx: nat) returns (j: nat)
    requires idx < |es| && FitIn(es[idx].1, height).Some?
    ensures j < |Fits(es, height)|
    ensures Fits(es, height)[j] == (es[idx].0, FitIn(es[idx].1, height).value)
    decreases |es|
  {
    if idx == 0 {
      j := 0;
    } else {
      var j' := FitsComplete(es[1..], height, idx - 1);
      assert es[1..][idx - 1] == es[idx];
      j := if FitIn(es[0].1, height).Some? then j' + 1 else j';
    }
  }

  /** Stock in terms of the side entries: each side maps to the counters of its height tree. */
  lemma StockAt(b: Boxes, idx: nat)
    requires Ordered(b.sides) && idx < |Entries(b.sides)|
    ensures var e := Entries(b.sides)[idx];
      e.0 in Stock(b) && Stock(b)[e.0] == Counts(e.1) && Stock(b)[e.0].Keys == Keys(e.1)
  {
    AsMapAt(Entries(b.sides), idx);
    AsMapKeys(Entries(Entries(b.sides)[idx].1));
  }

  /**
   Every GETBOX candidate is a stocked box whose side and height are each
   within Epsilon of, or above, the requested ones.
   */
  lemma CandidateFits(b: Boxes, side: real, height: real, j: nat)
    requires Valid(b) && j < |Candidates(b, side, height)|
    ensures var c := Candidates(b, side, height)[j];
      c.0 in Stock(b) && c.1 in Stock(b)[c.0] &&
      (FloatEqual(c.0, side) || side < c.0) &&
      (FloatEqual(c.1, height) || height < c.1)
  {
    var es := Entries(b.sides);
    var sp := Ub(b.sides, side).value;
    var k := Rank(b.sides, sp);
    EntryAtRank(b.sides, sp);
    var idx := FitsAt(es[k..], height, j);
    assert es[k..][idx] == es[k + idx];
    StockAt(b, k + idx);
    assert es[k].0 <= es[k + idx].0;
    assert es[k].0 in Keys(b.sides);
  }

  lemma GetBoxFits(b: Boxes, side: real, height: real)
    requires Valid(b)
    ensures var r := FindUb(b, side, height, false);
      r.Some? ==>
        r.value.0 in Stock(b) && r.value.1 in Stock(b)[r.value.0] &&
        (FloatEqual(r.value.0, side) || side < r.value.0) &&
        (FloatEqual(r.value.1, height) || height < r.value.1)
  {
    var i := FindUbFirstMin(b, side, height);
    if FindUb(b, side, height, false).Some? {
      CandidateFits(b, side, height, i);
    }
  }

  lemma CheckBoxAgrees(b: Boxes, side: real, height: real)
    ensures FindUb(b, side, height, true).Some? <==> FindUb(b, side, height, false).Some?
  {
    match Ub(b.sides, side)
    case None =>
    case Some(sp) =>
      var _ := ScanFromNone(b.sides, sp, height);
      ScanFirstFit(b.sides, sp, height);
  }

  /**
   In an ordered tree with no two keys within Epsilon, tree_ub of a target at
   or below some key stops at that key or at an earlier one: a key returned
   for being within Epsilon of the target cannot lie above another key that is
   at least the target.
   */
  lemma UbNotPast<V>(t: Tree<V>, key: real, idx: nat)
    requires Ordered(t) && Separated(Entries(t))
    requires idx < |Entries(t)| && key <= Entries(t)[idx].0
    ensures Ub(t, key).Some?
    ensures Rank(t, Ub(t, key).value) <= idx
  {
    var es := Entries(t);
    assert es[idx].0 in Keys(t);
    var sp := Ub(t, key).value;
    EntryAtRank(t, sp);
  }

  /** A side at or above the request is scanned. */
  lemma ScanReaches(b: Boxes, side: real, idx: nat)
    requires Valid(b) && idx < |Entries(b.sides)| && side <= Entries(b.sides)[idx].0
    ensures Ub(b.sides, side).Some?
    ensures Rank(b.sides, Ub(b.sides, side).value) <= idx
  {
    UbNotPast(b.sides, side, idx);
  }

  /** A stocked height at or above the request bounds the height tree_ub finds. */
  lemma HeightReaches(heights: Tree<int>, height: real, h: real)
    requires ValidHeights(heights) && h in Keys(heights) && height <= h
    ensures FitIn(heights, height).Some? && FitIn(heights, height).value <= h
  {
    var es := Entries(heights);
    var idx := KeysOfIndex(es, h);
    UbNotPast(heights, height, idx);
    var hp := Ub(heights, height).value;
    EntryAtRank(heights, hp);
    assert es[Rank(heights, hp)].0 <= es[idx].0;
  }

  /** A stocked box at least as large as the request in both dimensions gives a candidate of its side with no larger height. */
  lemma BestFitCandidate(b: Boxes, side: real, height: real, s: real, h: real) returns (j: nat)
    requires Valid(b) && s in Stock(b) && h in Stock(b)[s]
    requires side <= s && height <= h
    ensures j < |Candidates(b, side, height)|
    ensures Candidates(b, side, height)[j].0 == s && Candidates(b, side, height)[j].1 <= h
  {
    var es := Entries(b.sides);
    AsMapKeys(es);
    var idx := KeysOfIndex(es, s);
    StockAt(b, idx);
    ScanReaches(b, side, idx);
    var k := Rank(b.sides, Ub(b.sides, side).value);
    assert es[k..][idx - k] == es[idx];
    assert ValidHeights(es[idx].1);
    HeightReaches(es[idx].1, height, h);
    j := FitsComplete(es[k..], height, idx - k);
  }

  /**
   Best fit: when some stocked box is at least as large as the request in
   both side and height, GETBOX succeeds with a volume no larger than that
   box's.
   */
  lemma GetBoxBestFit(b: Boxes, side: real, height: real, s: real, h: real)
    requires Valid(b) && s in Stock(b) && h in Stock(b)[s]
    requires side <= s && height <= h
    ensures GetBox(b, side, height).Some?
    ensures Volume(GetBox(b, side, height).value) <= Volume((s, h))
  {
    var j := BestFitCandidate(b, side, height, s, h);
    var cs := Candidates(b, side, height);
    var i := GetBoxFirstMin(b, side, height);
    assert Volume(cs[i]) <= Volume(cs[j]);
    VolumeMonotone(s, cs[j].1, h);
  }

  lemma VolumeMonotone(s: real, h1: real, h2: real)
    requires h1 <= h2
    ensures Volume((s, h1)) <= Volume((s, h2))
  {
    assert s * s >= 0.0;
  }
}
