/**
 Key/value sequences: the in-order view of an ordered map. These are the
 reference definitions the tree operations are proved against.
 */
module Sequences {

  /** Keys strictly increase along the sequence. */
  predicate StrictlyIncreasing<V>(es: seq<(real, V)>) {
    forall i, j :: 0 <= i < j < |es| ==> es[i].0 < es[j].0
  }

  /** The set of keys occurring in the sequence. */
  function KeysOf<V>(es: seq<(real, V)>): set<real> {
    set i | 0 <= i < |es| :: es[i].0
  }

  /** Reference insertion: place (k, v) in front of the first entry whose key exceeds k. */
  function InsertSorted<V>(es: seq<(real, V)>, k: real, v: V): (r: seq<(real, V)>)
    ensures |r| == |es| + 1
  {
    if es == [] then [(k, v)]
    else if k < es[0].0 then [(k, v)] + es
    else [es[0]] + InsertSorted(es[1..], k, v)
  }

  /** The sequence with its i-th entry taken out. */
  function RemoveAt<V>(es: seq<(real, V)>, i: nat): (r: seq<(real, V)>)
    requires i < |es|
    ensures |r| == |es| - 1
    ensures forall j :: 0 <= j < i ==> r[j] == es[j]
    ensures forall j :: i <= j < |r| ==> r[j] == es[j + 1]
  {
    es[..i] + es[i + 1..]
  }

  /** The finite map a duplicate-free sequence denotes (an earlier entry wins). */
  function AsMap<V>(es: seq<(real, V)>): map<real, V> {
    if es == [] then map[] else AsMap(es[1..])[es[0].0 := es[0].1]
  }

  lemma KeysOfIndex<V>(es: seq<(real, V)>, k: real) returns (i: nat)
    requires k in KeysOf(es)
    ensures i < |es| && es[i].0 == k
  {
    i :| 0 <= i < |es| && es[i].0 == k;
  }

  lemma KeysOfConcat<V>(a: seq<(real, V)>, b: seq<(real, V)>)
    ensures KeysOf(a + b) == KeysOf(a) + KeysOf(b)
  {
    var c := a + b;
    forall k | k in KeysOf(c) ensures k in KeysOf(a) + KeysOf(b) {
      var i := KeysOfIndex(c, k);
      if i < |a| {
        assert c[i] == a[i];
      } else {
        assert c[i] == b[i - |a|];
      }
    }
    forall k | k in KeysOf(a) + KeysOf(b) ensures k in KeysOf(c) {
      if k in KeysOf(a) {
        var i := KeysOfIndex(a, k);
        assert c[i] == a[i];
      } else {
        var i := KeysOfIndex(b, k);
        assert c[i + |a|] == b[i];
      }
    }
  }

  /** The concatenation of two increasing runs, every key of the first below every key of the second. */
  lemma IncreasingConcat<V>(a: seq<(real, V)>, b: seq<(real, V)>)
    requires StrictlyIncreasing(a) && StrictlyIncreasing(b)
    requires forall i, j :: 0 <= i < |a| && 0 <= j < |b| ==> a[i].0 < b[j].0
    ensures StrictlyIncreasing(a + b)
  {
    var c := a + b;
    forall i, j | 0 <= i < j < |c| ensures c[i].0 < c[j].0 {
      if j < |a| {
      } else if i >= |a| {
        assert c[i] == b[i - |a|] && c[j] == b[j - |a|];
      } else {
        assert c[j] == b[j - |a|];
      }
    }
  }

  lemma IncreasingSlices<V>(es: seq<(real, V)>, lo: nat, hi: nat)
    requires StrictlyIncreasing(es) && lo <= hi <= |es|
    ensures StrictlyIncreasing(es[lo..hi])
  {
  }

  lemma {:induction false} InsertSortedShape<V>(es: seq<(real, V)>, k: real, v: V) returns (i: nat)
    ensures i <= |es|
    ensures InsertSorted(es, k, v) == es[..i] + [(k, v)] + es[i..]
    ensures forall j :: 0 <= j < i ==> !(k < es[j].0)
    ensures i < |es| ==> k < es[i].0
    decreases |es|
  {
    if es == [] {
      i := 0;
    } else if k < es[0].0 {
      i := 0;
    } else {
      var i' := InsertSortedShape(es[1..], k, v);
      i := i' + 1;
      assert es[1..][..i'] == es[1..i];
      assert es[1..][i'..] == es[i..];
      assert [es[0]] + es[1..i] == es[..i];
    }
  }

  /** Inserting a fresh key keeps the sequence strictly increasing and adds exactly that key. */
  lemma InsertSortedIncreasing<V>(es: seq<(real, V)>, k: real, v: V)
    requires StrictlyIncreasing(es) && k !in KeysOf(es)
    ensures StrictlyIncreasing(InsertSorted(es, k, v))
    ensures KeysOf(InsertSorted(es, k, v)) == KeysOf(es) + {k}
  {
    var i := InsertSortedShape(es, k, v);
    forall j | 0 <= j < i ensures es[j].0 < k {
      assert es[j].0 in KeysOf(es);
    }
    InsertedIncreasing(es, i, k, v);
    InsertedKeys(es, i, k, v);
  }

  lemma InsertedKeys<V>(es: seq<(real, V)>, i: nat, k: real, v: V)
    requires i <= |es|
    ensures KeysOf(es[..i] + [(k, v)] + es[i..]) == KeysOf(es) + {k}
  {
    var r := es[..i] + [(k, v)] + es[i..];
    forall x | x in KeysOf(r) ensures x in KeysOf(es) + {k} {
      var j := KeysOfIndex(r, x);
      if j < i {
        assert r[j] == es[j];
      } else if j > i {
        assert r[j] == es[j - 1];
      }
    }
    forall x | x in KeysOf(es) + {k} ensures x in KeysOf(r) {
      if x == k {
        assert r[i].0 == k;
      } else {
        var j := KeysOfIndex(es, x);
        if j < i {
          assert r[j] == es[j];
        } else {
          assert r[j + 1] == es[j];
        }
      }
    }
  }

  lemma InsertedIncreasing<V>(es: seq<(real, V)>, i: nat, k: real, v: V)
    requires StrictlyIncreasing(es) && i <= |es|
    requires forall j :: 0 <= j < i ==> es[j].0 < k
    requires i < |es| ==> k < es[i].0
    ensures StrictlyIncreasing(es[..i] + [(k, v)] + es[i..])
  {
    var r := es[..i] + [(k, v)] + es[i..];
    forall a, b | 0 <= a < b < |r| ensures r[a].0 < r[b].0 {
      if b < i {
        assert r[a] == es[a] && r[b] == es[b];
      } else if b == i {
        assert r[a] == es[a];
      } else if a < i {
        assert r[a] == es[a] && r[b] == es[b - 1];
      } else if a == i {
        assert r[b] == es[b - 1];
        assert es[i].0 <= es[b - 1].0;
      } else {
        assert r[a] == es[a - 1] && r[b] == es[b - 1];
      }
    }
  }

  /** Insertion distributes over a concatenation whose right part starts above k. */
  lemma {:induction false} InsertSortedLeft<V>(a: seq<(real, V)>, b: seq<(real, V)>, k: real, v: V)
    requires forall j :: 0 <= j < |b| ==> k < b[j].0
    ensures InsertSorted(a + b, k, v) == InsertSorted(a, k, v) + b
    decreases |a|
  {
    if a == [] {
      assert a + b == b;
    } else {
      assert (a + b)[0] == a[0];
      assert (a + b)[1..] == a[1..] + b;
      if !(k < a[0].0) {
        InsertSortedLeft(a[1..], b, k, v);
      }
    }
  }

  /** Insertion skips a prefix whose keys are all at most k. */
  lemma {:induction false} InsertSortedRight<V>(a: seq<(real, V)>, b: seq<(real, V)>, k: real, v: V)
    requires forall j :: 0 <= j < |a| ==> !(k < a[j].0)
    ensures InsertSorted(a + b, k, v) == a + InsertSorted(b, k, v)
    decreases |a|
  {
    if a == [] {
      assert a + b == b;
    } else {
      assert (a + b)[0] == a[0];
      assert (a + b)[1..] == a[1..] + b;
      InsertSortedRight(a[1..], b, k, v);
    }
  }

  /** Removing index i + 1 and then writing its entry over index i is removing index i. */
  lemma RemoveNextOver<V>(es: seq<(real, V)>, i: nat)
    requires i + 1 < |es|
    ensures RemoveAt(es, i + 1)[i := es[i + 1]] == RemoveAt(es, i)
  {
  }

  /** Removing an entry keeps the sequence strictly increasing and drops exactly that key. */
  lemma RemoveAtIncreasing<V>(es: seq<(real, V)>, i: nat)
    requires StrictlyIncreasing(es) && i < |es|
    ensures StrictlyIncreasing(RemoveAt(es, i))
    ensures KeysOf(RemoveAt(es, i)) == KeysOf(es) - {es[i].0}
  {
    var r := RemoveAt(es, i);
    forall a, b | 0 <= a < b < |r| ensures r[a].0 < r[b].0 {
      var a' := if a < i then a else a + 1;
      var b' := if b < i then b else b + 1;
      assert r[a] == es[a'] && r[b] == es[b'];
    }
    forall k | k in KeysOf(r) ensures k in KeysOf(es) - {es[i].0} {
      var j := KeysOfIndex(r, k);
      var j' := if j < i then j else j + 1;
      assert r[j] == es[j'];
      assert es[j'].0 in KeysOf(es);
    }
    forall k | k in KeysOf(es) - {es[i].0} ensures k in KeysOf(r) {
      var j := KeysOfIndex(es, k);
      assert j != i;
      var j' := if j < i then j else j - 1;
      assert r[j'] == es[j];
      assert r[j'].0 in KeysOf(r);
    }
  }

  lemma {:induction false} AsMapKeys<V>(es: seq<(real, V)>)
    ensures AsMap(es).Keys == KeysOf(es)
    decreases |es|
  {
    if es != [] {
      AsMapKeys(es[1..]);
      assert es == [es[0]] + es[1..];
      KeysOfConcat([es[0]], es[1..]);
    }
  }

  /** In a strictly increasing sequence every entry is what the map holds for its key. */
  lemma {:induction false} AsMapAt<V>(es: seq<(real, V)>, i: nat)
    requires StrictlyIncreasing(es) && i < |es|
    ensures es[i].0 in AsMap(es) && AsMap(es)[es[i].0] == es[i].1
    decreases |es|
  {
    if i > 0 {
      AsMapAt(es[1..], i - 1);
    }
  }

  /** Two strictly increasing sequences with the same keys and the same value at each index denote the same map. */
  lemma AsMapExt<V>(es: seq<(real, V)>, m: map<real, V>)
    requires StrictlyIncreasing(es)
    requires m.Keys == KeysOf(es)
    requires forall i :: 0 <= i < |es| ==> m[es[i].0] == es[i].1
    ensures AsMap(es) == m
  {
    AsMapKeys(es);
    forall k | k in m ensures AsMap(es)[k] == m[k] {
      var i := KeysOfIndex(es, k);
      AsMapAt(es, i);
    }
  }

  lemma AsMapUpdate<V>(es: seq<(real, V)>, i: nat, v: V)
    requires StrictlyIncreasing(es) && i < |es|
    ensures StrictlyIncreasing(es[i := (es[i].0, v)])
    ensures KeysOf(es[i := (es[i].0, v)]) == KeysOf(es)
    ensures AsMap(es[i := (es[i].0, v)]) == AsMap(es)[es[i].0 := v]
  {
    var es' := es[i := (es[i].0, v)];
    var m := AsMap(es)[es[i].0 := v];
    AsMapKeys(es);
    forall k | k in KeysOf(es') ensures k in KeysOf(es) {
      var j := KeysOfIndex(es', k);
      assert es[j].0 in KeysOf(es);
    }
    forall k | k in KeysOf(es) ensures k in KeysOf(es') {
      var j := KeysOfIndex(es, k);
      assert es'[j].0 in KeysOf(es');
    }
    forall j | 0 <= j < |es'| ensures m[es'[j].0] == es'[j].1 {
      AsMapAt(es, j);
    }
    AsMapExt(es', m);
  }

  lemma AsMapInsert<V>(es: seq<(real, V)>, k: real, v: V)
    requires StrictlyIncreasing(es) && k !in KeysOf(es)
    ensures AsMap(InsertSorted(es, k, v)) == AsMap(es)[k := v]
  {
    var r := InsertSorted(es, k, v);
    var m := AsMap(es)[k := v];
    InsertSortedIncreasing(es, k, v);
    AsMapKeys(es);
    var i := InsertSortedShape(es, k, v);
    forall j | 0 <= j < |r| ensures m[r[j].0] == r[j].1 {
      if j < i {
        assert r[j] == es[j];
        AsMapAt(es, j);
      } else if j > i {
        assert r[j] == es[j - 1];
        AsMapAt(es, j - 1);
      }
    }
    AsMapExt(r, m);
  }

  lemma AsMapRemove<V>(es: seq<(real, V)>, i: nat)
    requires StrictlyIncreasing(es) && i < |es|
    ensures AsMap(RemoveAt(es, i)) == AsMap(es) - {es[i].0}
  {
    var r := RemoveAt(es, i);
    var m := AsMap(es) - {es[i].0};
    RemoveAtIncreasing(es, i);
    AsMapKeys(es);
    forall j | 0 <= j < |r| ensures m[r[j].0] == r[j].1 {
      var j' := if j < i then j else j + 1;
      assert r[j] == es[j'];
      AsMapAt(es, j');
    }
    AsMapExt(r, m);
  }

  /** Removing the entry between a prefix and a suffix joins the two. */
  lemma RemoveAtMiddle<V>(pre: seq<(real, V)>, e: (real, V), post: seq<(real, V)>)
    ensures RemoveAt(pre + [e] + post, |pre|) == pre + post
  {
    var s := pre + [e] + post;
    var r := RemoveAt(s, |pre|);
    forall j | 0 <= j < |r| ensures r[j] == (pre + post)[j] {
      if j >= |pre| {
        assert r[j] == s[j + 1];
      }
    }
  }

  /** Removing index i forgets whatever was written there. */
  lemma RemoveAtUpdated<V>(es: seq<(real, V)>, i: nat, e: (real, V))
    requires i < |es|
    ensures RemoveAt(es[i := e], i) == RemoveAt(es, i)
  {
  }

  /** Every value of the sequence satisfies P. */
  predicate AllValues<V>(es: seq<(real, V)>, P: V -> bool) {
    forall i :: 0 <= i < |es| ==> P(es[i].1)
  }

  lemma AllValuesUpdate<V>(es: seq<(real, V)>, i: nat, k: real, v: V, P: V -> bool)
    requires AllValues(es, P) && i < |es| && P(v)
    ensures AllValues(es[i := (k, v)], P)
  {
  }

  lemma AllValuesInsert<V>(es: seq<(real, V)>, k: real, v: V, P: V -> bool)
    requires AllValues(es, P) && P(v)
    ensures AllValues(InsertSorted(es, k, v), P)
  {
    var r := InsertSorted(es, k, v);
    var i := InsertSortedShape(es, k, v);
    forall j | 0 <= j < |r| ensures P(r[j].1) {
      if j < i {
        assert r[j] == es[j];
      } else if j > i {
        assert r[j] == es[j - 1];
      }
    }
  }

  lemma AllValuesRemove<V>(es: seq<(real, V)>, i: nat, P: V -> bool)
    requires AllValues(es, P) && i < |es|
    ensures AllValues(RemoveAt(es, i), P)
  {
    var r := RemoveAt(es, i);
    forall j | 0 <= j < |r| ensures P(r[j].1) {
      assert r[j] == es[if j < i then j else j + 1];
    }
  }
}
