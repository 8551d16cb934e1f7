/** A stable insertion sort of items that carry an integer key, on values.

    This is the specification of the in-place sort in point_sort.dfy: there each point
    is paired with its squared distance from the origin, which the sort never changes. */
module KeyedSort {

  datatype Keyed<T> = Keyed(item: T, key: int)

  /** Non-decreasing keys. */
  predicate Sorted<T>(t: seq<Keyed<T>>) {
    forall i, j :: 0 <= i < j < |t| ==> t[i].key <= t[j].key
  }

  /** The elements of `t` whose key is `k`, in their order in `t`. */
  function Group<T>(t: seq<Keyed<T>>, k: int): (g: seq<Keyed<T>>)
    ensures |g| <= |t|
  {
    if t == [] then []
    else Group(t[..|t| - 1], k) + (if t[|t| - 1].key == k then [t[|t| - 1]] else [])
  }

  /** Inserts `e` into `t` from the right, passing every element whose key is greater. */
  function Insert<T>(t: seq<Keyed<T>>, e: Keyed<T>): (r: seq<Keyed<T>>)
    ensures |r| == |t| + 1
  {
    if t == [] then [e]
    else if t[|t| - 1].key > e.key then Insert(t[..|t| - 1], e) + [t[|t| - 1]]
    else t + [e]
  }

  /** Insert puts `e` right after the last element whose key is not greater than its own. */
  lemma {:induction false} InsertAt<T>(t: seq<Keyed<T>>, e: Keyed<T>, j: nat)
    requires j <= |t|
    requires j == 0 || t[j - 1].key <= e.key
    requires forall m :: j <= m < |t| ==> t[m].key > e.key
    ensures Insert(t, e) == t[..j] + [e] + t[j..]
    decreases |t|
  {
    if j < |t| {
      var t', l := t[..|t| - 1], t[|t| - 1];
      assert l.key > e.key;
      assert Insert(t, e) == Insert(t', e) + [l];
      InsertAt(t', e, j);
      assert t'[..j] == t[..j];
      assert t[j..] == t'[j..] + [l];
    } else if t != [] {
      assert t[|t| - 1].key <= e.key;
      assert Insert(t, e) == t + [e];
      assert t[..j] == t && t[j..] == [];
    }
  }

  /** Inserts each element, left to right, into the sorted prefix before it. */
  function InsertionSort<T>(t: seq<Keyed<T>>): (r: seq<Keyed<T>>)
    ensures |r| == |t|
  {
    if t == [] then [] else Insert(InsertionSort(t[..|t| - 1]), t[|t| - 1])
  }

  lemma {:induction false} GroupAppend<T>(t: seq<Keyed<T>>, u: seq<Keyed<T>>, k: int)
    ensures Group(t + u, k) == Group(t, k) + Group(u, k)
    decreases |u|
  {
    if u == [] {
      assert t + u == t;
    } else {
      assert (t + u)[..|t + u| - 1] == t + u[..|u| - 1];
      GroupAppend(t, u[..|u| - 1], k);
    }
  }

  lemma GroupSingle<T>(e: Keyed<T>, k: int)
    ensures Group([e], k) == if e.key == k then [e] else []
  {
  }

  lemma {:induction false} InsertPermutation<T>(t: seq<Keyed<T>>, e: Keyed<T>)
    ensures multiset(Insert(t, e)) == multiset(t) + multiset{e}
    decreases |t|
  {
    if t != [] {
      var t', l := t[..|t| - 1], t[|t| - 1];
      assert t == t' + [l];
      if l.key > e.key {
        InsertPermutation(t', e);
      }
    }
  }

  /** The sort returns a permutation of its input. */
  lemma {:induction false} SortPermutation<T>(t: seq<Keyed<T>>)
    ensures multiset(InsertionSort(t)) == multiset(t)
    decreases |t|
  {
    if t != [] {
      var t', l := t[..|t| - 1], t[|t| - 1];
      assert t == t' + [l];
      SortPermutation(t');
      InsertPermutation(InsertionSort(t'), l);
    }
  }

  lemma {:induction false} InsertSorted<T>(t: seq<Keyed<T>>, e: Keyed<T>)
    requires Sorted(t)
    ensures Sorted(Insert(t, e))
    ensures forall i :: 0 <= i < |Insert(t, e)| ==>
              Insert(t, e)[i] == e || exists j :: 0 <= j < |t| && Insert(t, e)[i] == t[j]
    decreases |t|
  {
    if t != [] && t[|t| - 1].key > e.key {
      var t', l := t[..|t| - 1], t[|t| - 1];
      InsertSorted(t', e);
      var r' := Insert(t', e);
      assert forall i :: 0 <= i < |r'| ==> r'[i].key <= l.key by {
        forall i | 0 <= i < |r'| ensures r'[i].key <= l.key {
          if r'[i] != e {
            var j :| 0 <= j < |t'| && r'[i] == t'[j];
            assert t[j] == t'[j];
          }
        }
      }
      forall i | 0 <= i < |Insert(t, e)|
        ensures Insert(t, e)[i] == e || exists j :: 0 <= j < |t| && Insert(t, e)[i] == t[j]
      {
        if i < |r'| && r'[i] != e {
          var j :| 0 <= j < |t'| && r'[i] == t'[j];
          assert t[j] == t'[j];
        } else if i == |r'| {
          assert Insert(t, e)[i] == t[|t| - 1];
        }
      }
    }
  }

  /** The sort returns its input in non-decreasing key order. */
  lemma {:induction false} SortSorted<T>(t: seq<Keyed<T>>)
    ensures Sorted(InsertionSort(t))
    decreases |t|
  {
    if t != [] {
      SortSorted(t[..|t| - 1]);
      InsertSorted(InsertionSort(t[..|t| - 1]), t[|t| - 1]);
    }
  }

  /** The step of InsertGroups where `e` moves past the last element `l`. */
  lemma InsertGroupsPast<T>(t': seq<Keyed<T>>, l: Keyed<T>, e: Keyed<T>, k: int, r': seq<Keyed<T>>)
    requires l.key > e.key
    requires Group(r', k) == Group(t', k) + Group([e], k)
    ensures Group(r' + [l], k) == Group(t' + [l], k) + Group([e], k)
  {
    GroupSingle(e, k);
    GroupSingle(l, k);
    GroupAppend(r', [l], k);
    GroupAppend(t', [l], k);
    var A, E, L := Group(t', k), Group([e], k), Group([l], k);
    // e and l have different keys, so at most one of them belongs to group k
    if E == [] {
      assert A + E + L == A + L + E;
    } else {
      assert L == [];
      assert A + E + L == A + L + E;
    }
  }

  lemma {:induction false} InsertGroups<T>(t: seq<Keyed<T>>, e: Keyed<T>, k: int)
    ensures Group(Insert(t, e), k) == Group(t, k) + Group([e], k)
    decreases |t|
  {
    GroupSingle(e, k);
    if t == [] {
      assert Insert(t, e) == [e];
      assert Group(t, k) + Group([e], k) == Group([e], k);
    } else {
      var t', l := t[..|t| - 1], t[|t| - 1];
      assert t == t' + [l];
      if l.key > e.key {
        assert Insert(t, e) == Insert(t', e) + [l];
        InsertGroups(t', e, k);
        InsertGroupsPast(t', l, e, k, Insert(t', e));
      } else {
        var r := t + [e];
        assert Insert(t, e) == r;
        assert r[..|r| - 1] == t && r[|r| - 1] == e;
      }
    }
  }

  /** The sort is stable: within each key, elements keep their relative order. */
  lemma {:induction false} SortGroups<T>(t: seq<Keyed<T>>, k: int)
    ensures Group(InsertionSort(t), k) == Group(t, k)
    decreases |t|
  {
    if t != [] {
      var t', l := t[..|t| - 1], t[|t| - 1];
      SortGroups(t', k);
      InsertGroups(InsertionSort(t'), l, k);
      GroupAppend(t', [l], k);
      assert t == t' + [l];
    }
  }

  lemma {:induction false} GroupMembers<T>(t: seq<Keyed<T>>, k: int, q: Keyed<T>)
    requires q in Group(t, k)
    ensures q in t && q.key == k
    decreases |t|
  {
    var t', l := t[..|t| - 1], t[|t| - 1];
    if q in Group(t', k) {
      GroupMembers(t', k, q);
      assert t == t' + [l];
    }
  }

  /** A key met in a sorted sequence is at most the key of its last element. */
  lemma LastIsLargest<T>(t: seq<Keyed<T>>, k: int, q: Keyed<T>)
    requires Sorted(t) && q in Group(t, k)
    ensures t != [] && t[|t| - 1].key >= k
  {
    GroupMembers(t, k, q);
  }

  /** The last elements of two sorted sequences with the same groups have the same key. */
  lemma LastKeysAgree<T>(t: seq<Keyed<T>>, u: seq<Keyed<T>>)
    requires Sorted(t) && Sorted(u) && (t != [] || u != [])
    requires forall k :: Group(t, k) == Group(u, k)
    ensures t != [] && u != [] && t[|t| - 1].key == u[|u| - 1].key
  {
    if t != [] {
      var l := t[|t| - 1];
      assert l in Group(t, l.key);
      LastIsLargest(u, l.key, l);
    }
    if u != [] {
      var l := u[|u| - 1];
      assert l in Group(u, l.key);
      LastIsLargest(t, l.key, l);
    }
  }

  lemma CancelLast<T>(a: seq<T>, x: T, b: seq<T>, y: T)
    requires a + [x] == b + [y]
    ensures a == b && x == y
  {
    assert |a| == |b|;
    assert a == (a + [x])[..|a|] && b == (b + [y])[..|b|];
    assert x == (a + [x])[|a|] && y == (b + [y])[|b|];
  }

  /** Appending `l` and `m` leaves group `k` as it was when neither has key `k`, and
      extends it by that element when both have it. */
  lemma DropLastAt<T>(t: seq<Keyed<T>>, l: Keyed<T>, u: seq<Keyed<T>>, m: Keyed<T>, k: int)
    requires l.key == m.key
    requires Group(t + [l], k) == Group(u + [m], k)
    ensures Group(t, k) == Group(u, k)
    ensures l.key == k ==> l == m
  {
    GroupAppend(t, [l], k);
    GroupAppend(u, [m], k);
    GroupSingle(l, k);
    GroupSingle(m, k);
    var g, h := Group(t, k), Group(u, k);
    if l.key == k {
      CancelLast(g, l, h, m);
    } else {
      assert g == g + [] && h == h + [];
    }
  }

  /** Removing equally keyed last elements keeps the groups equal, and those elements agree. */
  lemma DropLast<T>(t: seq<Keyed<T>>, l: Keyed<T>, u: seq<Keyed<T>>, m: Keyed<T>)
    requires l.key == m.key
    requires forall k :: Group(t + [l], k) == Group(u + [m], k)
    ensures l == m
    ensures forall k :: Group(t, k) == Group(u, k)
  {
    DropLastAt(t, l, u, m, l.key);
    forall k ensures Group(t, k) == Group(u, k) {
      DropLastAt(t, l, u, m, k);
    }
  }

  lemma SortedInit<T>(t: seq<Keyed<T>>)
    requires t != [] && Sorted(t)
    ensures Sorted(t[..|t| - 1])
  {
  }

  /** Two sorted sequences holding the same groups in the same order are equal. */
  lemma {:induction false} SortedGroupsDetermine<T>(t: seq<Keyed<T>>, u: seq<Keyed<T>>)
    requires Sorted(t) && Sorted(u)
    requires forall k :: Group(t, k) == Group(u, k)
    ensures t == u
    decreases |t|
  {
    if t != [] || u != [] {
      LastKeysAgree(t, u);
      var t', l, u', m := t[..|t| - 1], t[|t| - 1], u[..|u| - 1], u[|u| - 1];
      assert t == t' + [l] && u == u' + [m];
      DropLast(t', l, u', m);
      SortedInit(t);
      SortedInit(u);
      SortedGroupsDetermine(t', u');
    }
  }
}
