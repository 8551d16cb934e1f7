/** The in-place `points.sort()` of the point.py demo.

    Python's `list.sort` only asks `a < b`, which for `Point` (no `__lt__`) becomes the
    reflected `b.__gt__(a)`; the sort is stable. The model is an in-place insertion sort over
    an array that asks only `Gt`. Its specification SortByDistance pairs each point with its
    squared distance and runs the stable insertion sort of KeyedSort; the lemmas show that
    SortByDistance is sorted by distance, a permutation of its input, stable, and the only
    sequence with those three properties. */
module PointSort {
  import opened Points
  import opened KeyedSort

  /** Non-decreasing distance from the origin: no earlier point is `>` a later one. */
  ghost predicate SortedByDistance(s: seq<Point>)
    reads s
  {
    forall i, j :: 0 <= i < j < |s| ==> !s[i].Gt(s[j])
  }

  /** The points of `s` at squared distance `k`, in their order in `s`. */
  ghost function AtDistance(s: seq<Point>, k: int): (r: seq<Point>)
    reads s
    ensures |r| <= |s|
  {
    if s == [] then []
    else AtDistance(s[..|s| - 1], k) + (if s[|s| - 1].SqDistToOrigin() == k then [s[|s| - 1]] else [])
  }

  /** `t` keeps every group of equally distant points of `s`, in the same relative order. */
  ghost predicate Stable(s: seq<Point>, t: seq<Point>)
    reads s, t
  {
    forall k :: AtDistance(t, k) == AtDistance(s, k)
  }

  /** Pairs each point with its squared distance. */
  ghost function Tag(s: seq<Point>): (t: seq<Keyed<Point>>)
    reads s
    ensures |t| == |s|
    ensures forall i :: 0 <= i < |s| ==> t[i] == Keyed(s[i], s[i].SqDistToOrigin())
  {
    seq(|s|, i requires 0 <= i < |s| reads s => Keyed(s[i], s[i].SqDistToOrigin()))
  }

  function Untag(t: seq<Keyed<Point>>): (s: seq<Point>)
    ensures |s| == |t|
    ensures forall i :: 0 <= i < |t| ==> s[i] == t[i].item
  {
    seq(|t|, i requires 0 <= i < |t| => t[i].item)
  }

  /** Every key is the current squared distance of its point. */
  ghost predicate Faithful(t: seq<Keyed<Point>>)
    reads set i | 0 <= i < |t| :: t[i].item
  {
    forall i :: 0 <= i < |t| ==> t[i].key == t[i].item.SqDistToOrigin()
  }

  /** The specification of the sort: the stable insertion sort by squared distance. */
  ghost function SortByDistance(s: seq<Point>): seq<Point>
    reads s
  {
    Untag(InsertionSort(Tag(s)))
  }

  lemma TagFaithful(s: seq<Point>)
    ensures Faithful(Tag(s)) && Untag(Tag(s)) == s
  {
  }

  lemma FaithfulPermutation(t: seq<Keyed<Point>>, u: seq<Keyed<Point>>)
    requires Faithful(t) && multiset(u) == multiset(t)
    ensures Faithful(u)
  {
    forall i | 0 <= i < |u| ensures u[i].key == u[i].item.SqDistToOrigin() {
      assert u[i] in multiset(t);
      var j :| 0 <= j < |t| && t[j] == u[i];
    }
  }

  lemma SortedBridge(t: seq<Keyed<Point>>)
    requires Faithful(t) && Sorted(t)
    ensures SortedByDistance(Untag(t))
  {
  }

  lemma UntagAppend(t: seq<Keyed<Point>>, u: seq<Keyed<Point>>)
    ensures Untag(t + u) == Untag(t) + Untag(u)
  {
  }

  lemma {:induction false} AtDistanceBridge(t: seq<Keyed<Point>>, k: int)
    requires Faithful(t)
    ensures AtDistance(Untag(t), k) == Untag(Group(t, k))
    decreases |t|
  {
    if t != [] {
      var t', l := t[..|t| - 1], t[|t| - 1];
      assert Untag(t)[..|t| - 1] == Untag(t');
      AtDistanceBridge(t', k);
      UntagAppend(Group(t', k), if l.key == k then [l] else []);
    }
  }

  lemma {:induction false} UntagInsert(t: seq<Keyed<Point>>, e: Keyed<Point>)
    ensures multiset(Untag(Insert(t, e))) == multiset(Untag(t)) + multiset{e.item}
    decreases |t|
  {
    if t != [] {
      var t', l := t[..|t| - 1], t[|t| - 1];
      assert t == t' + [l];
      UntagAppend(t', [l]);
      if l.key > e.key {
        UntagInsert(t', e);
        UntagAppend(Insert(t', e), [l]);
      } else {
        UntagAppend(t, [e]);
      }
    }
  }

  lemma {:induction false} UntagSort(t: seq<Keyed<Point>>)
    ensures multiset(Untag(InsertionSort(t))) == multiset(Untag(t))
    decreases |t|
  {
    if t != [] {
      var t', l := t[..|t| - 1], t[|t| - 1];
      assert t == t' + [l];
      UntagAppend(t', [l]);
      UntagSort(t');
      UntagInsert(InsertionSort(t'), l);
    }
  }

  /** SortByDistance returns the points in non-decreasing distance order. */
  lemma SortIsSorted(s: seq<Point>)
    ensures SortedByDistance(SortByDistance(s))
  {
    TagFaithful(s);
    SortSorted(Tag(s));
    SortPermutation(Tag(s));
    FaithfulPermutation(Tag(s), InsertionSort(Tag(s)));
    SortedBridge(InsertionSort(Tag(s)));
  }

  /** SortByDistance returns a permutation of its input. */
  lemma SortIsPermutation(s: seq<Point>)
    ensures multiset(SortByDistance(s)) == multiset(s)
  {
    TagFaithful(s);
    UntagSort(Tag(s));
  }

  /** SortByDistance keeps equally distant points in their original relative order. */
  lemma SortIsStable(s: seq<Point>)
    ensures Stable(s, SortByDistance(s))
  {
    TagFaithful(s);
    SortPermutation(Tag(s));
    FaithfulPermutation(Tag(s), InsertionSort(Tag(s)));
    forall k ensures AtDistance(SortByDistance(s), k) == AtDistance(s, k) {
      AtDistanceBridge(InsertionSort(Tag(s)), k);
      SortGroups(Tag(s), k);
      AtDistanceBridge(Tag(s), k);
    }
  }

  lemma {:induction false} GroupFaithful(t: seq<Keyed<Point>>, k: int)
    requires Faithful(t)
    ensures Faithful(Group(t, k))
  {
    forall q | q in Group(t, k) ensures q.key == q.item.SqDistToOrigin() {
      GroupMembers(t, k, q);
      var i :| 0 <= i < |t| && t[i] == q;
    }
  }

  /** On faithful pairs the points alone determine the pairs. */
  lemma UntagInjective(t: seq<Keyed<Point>>, u: seq<Keyed<Point>>)
    requires Faithful(t) && Faithful(u) && Untag(t) == Untag(u)
    ensures t == u
  {
    assert |t| == |Untag(t)| == |u|;
    forall i | 0 <= i < |t| ensures t[i] == u[i] {
      assert t[i].item == Untag(t)[i] == u[i].item;
    }
  }

  lemma SortedByDistanceBridge(s: seq<Point>)
    requires SortedByDistance(s)
    ensures Sorted(Tag(s))
  {
  }

  /** Any sort that is stable and orders by distance returns exactly SortByDistance's
      result, so Python's own sorting algorithm and this insertion sort agree. */
  lemma StableSortIsUnique(s: seq<Point>, t: seq<Point>)
    requires SortedByDistance(t) && Stable(s, t)
    ensures t == SortByDistance(s)
  {
    var ts, tt := Tag(s), Tag(t);
    var r := InsertionSort(ts);
    TagFaithful(s);
    TagFaithful(t);
    SortedByDistanceBridge(t);
    SortSorted(ts);
    forall k ensures Group(tt, k) == Group(r, k) {
      AtDistanceBridge(tt, k);
      AtDistanceBridge(ts, k);
      GroupFaithful(tt, k);
      GroupFaithful(ts, k);
      UntagInjective(Group(tt, k), Group(ts, k));
      SortGroups(ts, k);
    }
    SortedGroupsDetermine(tt, r);
  }

  /** `g` pairs the array's points, in order, with their current squared distances. */
  ghost predicate Mirrors(a: array<Point>, g: seq<Keyed<Point>>)
    reads a, set m | 0 <= m < |g| :: g[m].item
  {
    a.Length == |g| &&
    forall m :: 0 <= m < |g| ==> a[m] == g[m].item && g[m].key == g[m].item.SqDistToOrigin()
  }

  lemma MirrorsBridge(a: array<Point>, g: seq<Keyed<Point>>)
    requires Mirrors(a, g)
    ensures a[..] == Untag(g) && Faithful(g)
  {
  }

  /** Swaps the neighbours `a[j - 1]` and `a[j]`, and their pairs in `g`. */
  method SwapDown(a: array<Point>, j: nat, ghost g: seq<Keyed<Point>>)
      returns (ghost g': seq<Keyed<Point>>)
    requires 0 < j < |g| && Mirrors(a, g)
    modifies a
    ensures Mirrors(a, g')
    ensures g' == g[j - 1 := g[j]][j := g[j - 1]]
  {
    a[j - 1], a[j] := a[j], a[j - 1];
    g' := g[j - 1 := g[j]][j := g[j - 1]];
  }

  /** The pairs during one insertion pass, with `e` waiting at position `j`. */
  function Passing(pre: seq<Keyed<Point>>, e: Keyed<Point>, rest: seq<Keyed<Point>>, j: nat): (l: seq<Keyed<Point>>)
    requires j <= |pre|
    ensures |l| == |pre| + 1 + |rest| && l[j] == e
    ensures j > 0 ==> l[j - 1] == pre[j - 1]
  {
    pre[..j] + [e] + pre[j..] + rest
  }

  /** Swapping `e` with its left neighbour moves it one place to the left. */
  lemma PassingStep(pre: seq<Keyed<Point>>, e: Keyed<Point>, rest: seq<Keyed<Point>>, j: nat)
    requires 0 < j <= |pre|
    ensures Passing(pre, e, rest, j)[j - 1 := e][j := pre[j - 1]] == Passing(pre, e, rest, j - 1)
  {
    var front, x, back := pre[..j - 1], pre[j - 1], pre[j..];
    assert pre[..j] == front + [x] && pre[j - 1..] == [x] + back;
    var l := front + [x] + [e] + back + rest;
    var l' := front + [e] + [x] + back + rest;
    assert Passing(pre, e, rest, j) == l;
    assert Passing(pre, e, rest, j - 1) == l';
    assert l[j - 1 := e][j := x] == l' by {
      assert |front| == j - 1;
      forall m | 0 <= m < |l'| ensures l[j - 1 := e][j := x][m] == l'[m] {
        if m < j - 1 {
          assert l[m] == front[m] == l'[m];
        } else if m > j {
          assert l[m] == (back + rest)[m - j - 1] == l'[m];
        }
      }
    }
  }

  /** The pass ends with `e` inserted into `pre` in front of `rest`. */
  lemma PassingDone(pre: seq<Keyed<Point>>, e: Keyed<Point>, rest: seq<Keyed<Point>>, j: nat)
    requires j <= |pre|
    requires j == 0 || pre[j - 1].key <= e.key
    requires forall m :: j <= m < |pre| ==> pre[m].key > e.key
    ensures Passing(pre, e, rest, j)[..|pre| + 1] == Insert(pre, e)
    ensures Passing(pre, e, rest, j)[|pre| + 1..] == rest
  {
    InsertAt(pre, e, j);
    var l := Passing(pre, e, rest, j);
    assert l == (pre[..j] + [e] + pre[j..]) + rest;
  }

  lemma PassingStart(g: seq<Keyed<Point>>, i: nat)
    requires i < |g|
    ensures Passing(g[..i], g[i], g[i + 1..], i) == g
  {
    assert g[..i][..i] == g[..i] && g[..i][i..] == [];
    assert g == g[..i] + [g[i]] + g[i + 1..];
  }

  /** One pass of the insertion sort: moves `a[i]` left past every point that is `>` it.
      `g` pairs the array's points with their distances. */
  method InsertLast(a: array<Point>, i: nat, ghost g: seq<Keyed<Point>>)
      returns (ghost g': seq<Keyed<Point>>)
    requires i < |g| && Mirrors(a, g)
    modifies a
    ensures |g'| == |g| && Mirrors(a, g')
    ensures g'[..i + 1] == Insert(g[..i], g[i])
    ensures g'[i + 1..] == g[i + 1..]
  {
    ghost var pre, e, rest := g[..i], g[i], g[i + 1..];
    PassingStart(g, i);
    g' := g;
    var j := i;
    while j > 0 && a[j - 1].Gt(a[j])
      invariant 0 <= j <= i
      invariant g' == Passing(pre, e, rest, j) && Mirrors(a, g')
      invariant forall m :: j <= m < i ==> pre[m].key > e.key
    {
      assert g'[j - 1] == pre[j - 1] && g'[j] == e;
      assert pre[j - 1].key > e.key;
      PassingStep(pre, e, rest, j);
      g' := SwapDown(a, j, g');
      j := j - 1;
    }
    PassingDone(pre, e, rest, j);
  }

  /** One pass of InsertLast extends the sorted prefix by one element. */
  lemma SortStep(all: seq<Keyed<Point>>, i: nat, g: seq<Keyed<Point>>, g2: seq<Keyed<Point>>)
    requires i < |all| == |g| == |g2|
    requires g[..i] == InsertionSort(all[..i]) && g[i..] == all[i..]
    requires g2[..i + 1] == Insert(g[..i], g[i]) && g2[i + 1..] == g[i + 1..]
    ensures g2[..i + 1] == InsertionSort(all[..i + 1]) && g2[i + 1..] == all[i + 1..]
  {
    assert g[i] == g[i..][0] == all[i];
    assert all[..i + 1][..i] == all[..i];
    assert g[i + 1..] == g[i..][1..] == all[i..][1..] == all[i + 1..];
  }

  /** `points.sort()`: sorts the array in place, asking only whether one point is `>` another. */
  method Sort(a: array<Point>)
    modifies a
    ensures a[..] == SortByDistance(old(a[..]))
    ensures SortedByDistance(a[..])
    ensures multiset(a[..]) == multiset(old(a[..]))
    ensures Stable(old(a[..]), a[..])
  {
    ghost var orig := a[..];
    ghost var all := Tag(orig);
    ghost var g := all;
    var i := 0;
    while i < a.Length
      invariant 0 <= i <= a.Length && |g| == |all| == a.Length
      invariant Mirrors(a, g)
      invariant g[..i] == InsertionSort(all[..i])
      invariant g[i..] == all[i..]
    {
      ghost var before := g;
      g := InsertLast(a, i, g);
      SortStep(all, i, before, g);
      i := i + 1;
    }
    assert g == g[..a.Length] && all == all[..a.Length];
    MirrorsBridge(a, g);
    TagFaithful(orig);
    SortIsSorted(orig);
    SortIsPermutation(orig);
    SortIsStable(orig);
  }
}
