/** The in-place quicksort of src/bscl_sort.c. The pivot wanders: it is swapped with whatever stands on its
    wrong side, and the search goes on towards its new place from the other end. */
module QuickSort {
  import opened Comparison

  // ----- rearranging a stretch

  function Swapped<T>(s: seq<T>, p: int, q: int): (r: seq<T>)
    requires 0 <= p < |s| && 0 <= q < |s|
  {
    s[p := s[q]][q := s[p]]
  }

  /** t has the elements of s from lo to hi rearranged, and everything else as it was. */
  ghost predicate Rearranged<T>(s: seq<T>, t: seq<T>, lo: int, hi: int) {
    && 0 <= lo <= hi <= |s| == |t|
    && s[..lo] == t[..lo] && s[hi..] == t[hi..]
    && multiset(s[lo..hi]) == multiset(t[lo..hi])
  }

  lemma SwapSame<T>(s: seq<T>, p: int, q: int)
    requires 0 <= p < |s| && 0 <= q < |s|
    ensures multiset(Swapped(s, p, q)) == multiset(s)
  {
  }

  lemma SwapRearranges<T>(s: seq<T>, p: int, q: int, lo: int, hi: int)
    requires 0 <= lo <= p < hi <= |s| && lo <= q < hi
    ensures Rearranged(s, Swapped(s, p, q), lo, hi)
  {
    var t := Swapped(s, p, q);
    assert t[lo..hi] == Swapped(s[lo..hi], p - lo, q - lo);
    SwapSame(s[lo..hi], p - lo, q - lo);
    assert t[..lo] == s[..lo] && t[hi..] == s[hi..];
  }

  /** Rearranging a stretch rearranges any stretch around it. */
  lemma Widen<T>(s: seq<T>, t: seq<T>, lo: int, hi: int, a: int, b: int)
    requires Rearranged(s, t, lo, hi) && 0 <= a <= lo && hi <= b <= |s|
    ensures Rearranged(s, t, a, b)
  {
    assert s[..a] == s[..lo][..a] == t[..a];
    assert s[b..] == s[hi..][b - hi..] == t[b..];
    assert s[a..lo] == s[..lo][a..] == t[a..lo];
    assert s[hi..b] == s[hi..][..b - hi] == t[hi..b];
    assert s[a..b] == s[a..lo] + s[lo..hi] + s[hi..b];
    assert t[a..b] == t[a..lo] + t[lo..hi] + t[hi..b];
  }

  // ----- order

  ghost predicate AllUpTo<T>(s: seq<T>, v: T, cmp: Compare<T>) {
    forall x :: x in s ==> cmp(x, v) <= 0
  }

  ghost predicate AllFrom<T>(s: seq<T>, v: T, cmp: Compare<T>) {
    forall x :: x in s ==> cmp(v, x) <= 0
  }

  ghost predicate InOrder<T>(s: seq<T>, cmp: Compare<T>, p: int, q: int)
    requires 0 <= p <= q < |s|
  {
    cmp(s[p], s[q]) <= 0
  }

  ghost predicate Sorted<T>(s: seq<T>, cmp: Compare<T>) {
    forall p, q {:trigger InOrder(s, cmp, p, q)} :: 0 <= p < q < |s| ==> InOrder(s, cmp, p, q)
  }

  lemma SameElements<T>(s: seq<T>, t: seq<T>, v: T, cmp: Compare<T>)
    requires multiset(s) == multiset(t)
    ensures AllUpTo(s, v, cmp) ==> AllUpTo(t, v, cmp)
    ensures AllFrom(s, v, cmp) ==> AllFrom(t, v, cmp)
  {
    forall x | x in t
      ensures x in s
    {
      assert x in multiset(t);
      assert x in multiset(s);
    }
  }

  /** Sorted sides around the pivot make a sorted whole. */
  lemma Join<T(!new)>(l: seq<T>, v: T, r: seq<T>, cmp: Compare<T>)
    requires Preorder(cmp) && Sorted(l, cmp) && Sorted(r, cmp) && AllUpTo(l, v, cmp) && AllFrom(r, v, cmp)
    ensures Sorted(l + [v] + r, cmp)
  {
    var s, n := l + [v] + r, |l|;
    forall p, q | 0 <= p < q < |s|
      ensures InOrder(s, cmp, p, q)
    {
      if q < n {
        assert InOrder(l, cmp, p, q);
      } else if p > n {
        assert InOrder(r, cmp, p - n - 1, q - n - 1);
      } else {
        assert p < n ==> s[p] in l;
        assert q > n ==> s[q] == r[q - n - 1] && s[q] in r;
        assert Transitive(cmp, s[p], v, s[q]);
      }
    }
  }

  // ----- the sweeps

  /** What the upward loop makes of s, and where it leaves the pivot. */
  function Up<T>(s: seq<T>, i: int, m: int, cmp: Compare<T>): (r: (seq<T>, int))
    requires 0 <= i <= m < |s|
    ensures |r.0| == |s| && i <= r.1 <= m
    decreases m - i
  {
    if i == m then (s, m)
    else if cmp(s[i], s[m]) > 0 then Up(Swapped(s, i, m), i, i, cmp)
    else Up(s, i + 1, m, cmp)
  }

  /** The same for the downward loop. */
  function Down<T>(s: seq<T>, m: int, j: int, cmp: Compare<T>): (r: (seq<T>, int))
    requires 0 <= m <= j < |s|
    ensures |r.0| == |s| && m <= r.1 <= j
    decreases j - m
  {
    if m == j then (s, m)
    else if cmp(s[m], s[j]) > 0 then Down(Swapped(s, j, m), j, j, cmp)
    else Down(s, m, j - 1, cmp)
  }

  /** Where the outer loop stands: the elements, both ends, and the pivot's place. */
  datatype Sweep<T> = Sweep(s: seq<T>, i: int, m: int, j: int) {
    predicate InRange() {
      0 <= i <= m <= j < |s|
    }
  }

  /** One turn of the outer loop. */
  function TurnOf<T>(w: Sweep<T>, cmp: Compare<T>): (r: Sweep<T>)
    requires w.InRange()
    ensures r.InRange() && w.i <= r.i && r.m == r.j <= w.j
  {
    var u := Up(w.s, w.i, w.m, cmp);
    var d := Down(u.0, u.1, w.j, cmp);
    Sweep(d.0, u.1, d.1, d.1)
  }

  /** Where n turns lead, if there are so many. */
  function Turns<T>(w: Sweep<T>, n: nat, cmp: Compare<T>): (r: Sweep<T>)
    requires w.InRange()
    ensures r.InRange()
  {
    if n == 0 then w
    else
      var before := Turns(w, n - 1, cmp);
      if before.i < before.j then TurnOf(before, cmp) else before
  }

  /** The outer loop ends after at most n turns. */
  predicate Ended<T>(w: Sweep<T>, n: nat, cmp: Compare<T>)
    requires w.InRange()
  {
    Turns(w, n, cmp).i >= Turns(w, n, cmp).j
  }

  ghost predicate Ends<T>(w: Sweep<T>, cmp: Compare<T>) {
    w.InRange() ==> exists n: nat :: Ended(w, n, cmp)
  }

  /** The outer loop ends for all elements, ends and pivots exactly if of any two elements one may come first. */
  lemma LoopEndsIff<T(!new)>(cmp: Compare<T>)
    ensures (forall w: Sweep<T> {:trigger Ends(w, cmp)} :: Ends(w, cmp))
       <==> (forall a, b {:trigger Total(cmp, a, b)} :: Total(cmp, a, b))
  {
    if (forall a, b {:trigger Total(cmp, a, b)} :: Total(cmp, a, b)) {
      forall w: Sweep<T>
        ensures Ends(w, cmp)
      {
        if w.InRange() {
          LoopEnds(w, 2 * (w.j - w.i) + 1, 0, cmp);
        }
      }
    } else {
      var a, b :| !Total(cmp, a, b);
      ComesBack(Sweep([a, b], 0, 1, 1), a, b, cmp);
      assert !Ends(Sweep([a, b], 0, 1, 1), cmp);
    }
  }

  /** A turn leaves less between the ends, or the pivot at the upper end where it was not before. */
  lemma TurnProgress<T>(w: Sweep<T>, cmp: Compare<T>)
    requires w.InRange() && w.i < w.j && Total(cmp, w.s[w.i], w.s[w.m])
    ensures var r := TurnOf(w, cmp); r.j - r.i < w.j - w.i || w.m != w.j
  {
    var u := Up(w.s, w.i, w.m, cmp);
    if u.1 == w.i && w.m == w.j {
      var t := Swapped(w.s, w.i, w.m);
      assert cmp(w.s[w.i], w.s[w.m]) > 0;
      assert u == Up(t, w.i, w.i, cmp) == (t, w.i);
      assert Down(t, w.i, w.j, cmp) == Down(t, w.i, w.j - 1, cmp);
    }
  }

  lemma {:induction false} LoopEnds<T(!new)>(w: Sweep<T>, k: nat, n: nat, cmp: Compare<T>)
    requires w.InRange() && forall a, b {:trigger Total(cmp, a, b)} :: Total(cmp, a, b)
    requires var r := Turns(w, n, cmp); 2 * (r.j - r.i) + (if r.m != r.j then 1 else 0) <= k
    ensures exists n: nat :: Ended(w, n, cmp)
    decreases k
  {
    var r := Turns(w, n, cmp);
    if r.i >= r.j {
      assert Ended(w, n, cmp);
    } else {
      assert Total(cmp, r.s[r.i], r.s[r.m]);
      TurnProgress(r, cmp);
      LoopEnds(w, k - 1, n + 1, cmp);
    }
  }

  /** Two elements each of which compares greater than the other change places for ever. */
  lemma ComesBack<T>(w: Sweep<T>, a: T, b: T, cmp: Compare<T>)
    requires w == Sweep([a, b], 0, 1, 1) && !Total(cmp, a, b)
    ensures forall n: nat :: !Ended(w, n, cmp)
  {
    assert Swapped(w.s, 0, 1) == [b, a];
    assert Swapped([b, a], 1, 0) == w.s;
    assert TurnOf(w, cmp) == w;
    forall n: nat
      ensures !Ended(w, n, cmp)
    {
      StaysAt(w, n, cmp);
    }
  }

  lemma {:induction false} StaysAt<T>(w: Sweep<T>, n: nat, cmp: Compare<T>)
    requires w.InRange() && TurnOf(w, cmp) == w
    ensures Turns(w, n, cmp) == w
  {
    if n > 0 {
      StaysAt(w, n - 1, cmp);
    }
  }

  /** Everything in place before i goes before v or together with it, everything after j the other way. */
  ghost predicate Parted<T>(s: seq<T>, first: int, i: int, j: int, last: int, v: T, cmp: Compare<T>)
    requires 0 <= first <= i <= j + 1 <= last + 1 <= |s|
  {
    && (forall p :: first <= p < i ==> cmp(s[p], v) <= 0)
    && (forall p :: j < p <= last ==> cmp(v, s[p]) <= 0)
  }

  /** t is what the sweep from i up made of s. */
  ghost predicate SweptUp<T>(s: seq<T>, t: seq<T>, i0: int, m: int, m0: int, cmp: Compare<T>)
    requires 0 <= i0 <= m <= m0 < |s|
  {
    t == Swapped(s, m, m0) && forall p :: i0 <= p < m ==> cmp(t[p], s[m0]) <= 0
  }

  ghost predicate SweptDown<T>(s: seq<T>, t: seq<T>, m0: int, m: int, j0: int, cmp: Compare<T>)
    requires 0 <= m0 <= m <= j0 < |s|
  {
    t == Swapped(s, m, m0) && forall p :: m < p <= j0 ==> cmp(s[m0], t[p]) <= 0
  }

  lemma AfterUp<T>(s: seq<T>, t: seq<T>, first: int, i0: int, m: int, m0: int, j: int, last: int,
      cmp: Compare<T>)
    requires 0 <= first <= i0 <= m <= m0 <= j <= last < |s| && Parted(s, first, i0, j, last, s[m0], cmp)
    requires SweptUp(s, t, i0, m, m0, cmp)
    ensures Rearranged(s, t, first, last + 1) && Parted(t, first, m, j, last, s[m0], cmp)
  {
    SwapRearranges(s, m, m0, first, last + 1);
  }

  lemma AfterDown<T>(s: seq<T>, t: seq<T>, first: int, m0: int, m: int, j0: int, last: int,
      cmp: Compare<T>)
    requires 0 <= first <= m0 <= m <= j0 <= last < |s| && Parted(s, first, m0, j0, last, s[m0], cmp)
    requires SweptDown(s, t, m0, m, j0, cmp)
    ensures Rearranged(s, t, first, last + 1) && Parted(t, first, m0, m, last, s[m0], cmp)
  {
    SwapRearranges(s, m, m0, first, last + 1);
  }

  method Swap<T>(a: array<T>, p: int, q: int)
    requires 0 <= p < a.Length && 0 <= q < a.Length
    modifies a
    ensures a[..] == Swapped(old(a[..]), p, q)
  {
    var temp := a[p];
    a[p] := a[q];
    a[q] := temp;
  }

  /** From i up to the pivot at m0; what is greater than the pivot changes places with it. */
  method SweepUp<T>(a: array<T>, ghost first: int, i0: int, m0: int, ghost j: int, ghost last: int,
      cmp: Compare<T>) returns (i: int, m: int)
    requires 0 <= first <= i0 <= m0 <= j <= last < a.Length && Parted(a[..], first, i0, j, last, a[m0], cmp)
    modifies a
    ensures i0 <= i == m <= m0 && a[m] == old(a[m0]) && Rearranged(old(a[..]), a[..], first, last + 1)
    ensures Parted(a[..], first, i, j, last, a[m], cmp)
    ensures m < m0 ==> cmp(a[m0], a[m]) > 0
    ensures (a[..], m) == Up(old(a[..]), i0, m0, cmp)
  {
    i, m := i0, m0;
    while i < m
      invariant i0 <= i <= m <= m0 && a[..] == Swapped(old(a[..]), m, m0)
      invariant m < m0 ==> i == m && cmp(a[m0], a[m]) > 0
      invariant Up(a[..], i, m, cmp) == Up(old(a[..]), i0, m0, cmp)
      invariant forall p :: i0 <= p < i ==> cmp(a[p], a[m]) <= 0
      decreases m - i
    {
      var ret := cmp(a[i], a[m]);
      if ret > 0 {
        Swap(a, i, m);
        m := i;
      } else {
        i := i + 1;
      }
    }
    AfterUp(old(a[..]), a[..], first, i0, m, m0, j, last, cmp);
  }

  /** From j down to the pivot at m0; what the pivot is greater than changes places with it. */
  method SweepDown<T>(a: array<T>, ghost first: int, m0: int, j0: int, ghost last: int,
      cmp: Compare<T>) returns (j: int, m: int)
    requires 0 <= first <= m0 <= j0 <= last < a.Length && Parted(a[..], first, m0, j0, last, a[m0], cmp)
    modifies a
    ensures m0 <= j == m <= j0 && a[m] == old(a[m0]) && Rearranged(old(a[..]), a[..], first, last + 1)
    ensures Parted(a[..], first, m0, j, last, a[m], cmp)
    ensures m > m0 ==> cmp(a[m], old(a[m])) > 0
    ensures (a[..], m) == Down(old(a[..]), m0, j0, cmp)
  {
    j, m := j0, m0;
    while m < j
      invariant m0 <= m <= j <= j0 && a[..] == Swapped(old(a[..]), m, m0)
      invariant m > m0 ==> j == m && cmp(a[m], old(a[m])) > 0
      invariant Down(a[..], m, j, cmp) == Down(old(a[..]), m0, j0, cmp)
      invariant forall p :: j < p <= j0 ==> cmp(a[m], a[p]) <= 0
      decreases j - m
    {
      var ret := cmp(a[m], a[j]);
      if ret > 0 {
        Swap(a, j, m);
        m := j;
      } else {
        j := j - 1;
      }
    }
    AfterDown(old(a[..]), a[..], first, m0, m, j0, last, cmp);
  }

  /** One turn of the outer loop: both sweeps. It leaves less between i and j, or the pivot at j where it was
      not before. */
  method Turn<T(!new)>(a: array<T>, ghost first: int, i0: int, m0: int, j0: int, ghost last: int,
      cmp: Compare<T>) returns (i: int, m: int, j: int)
    requires Preorder(cmp) && 0 <= first <= i0 <= m0 <= j0 <= last < a.Length && i0 < j0
    requires Parted(a[..], first, i0, j0, last, a[m0], cmp)
    modifies a
    ensures i0 <= i <= m == j <= j0 && a[m] == old(a[m0])
    ensures Rearranged(old(a[..]), a[..], first, last + 1)
    ensures Parted(a[..], first, i, j, last, a[m], cmp)
    ensures j - i < j0 - i0 || m0 != j0
    ensures Sweep(a[..], i, m, j) == TurnOf(Sweep(old(a[..]), i0, m0, j0), cmp)
  {
    i, m := SweepUp(a, first, i0, m0, j0, last, cmp);
    ghost var m1, s1 := m, a[..];
    assert m1 < m0 ==> Total(cmp, a[m0], a[m1]);
    j, m := SweepDown(a, first, m, j0, last, cmp);
    RearrangedAgain(old(a[..]), s1, a[..], first, last + 1);
  }

  /** Some element finds its place: nothing before it is greater, nothing after it is less. */
  method Partition<T(!new)>(a: array<T>, first: int, last: int, m0: int, cmp: Compare<T>) returns (m: int)
    requires Preorder(cmp) && 0 <= first <= m0 <= last < a.Length
    modifies a
    ensures first <= m <= last && a[m] == old(a[m0])
    ensures Rearranged(old(a[..]), a[..], first, last + 1)
    ensures Parted(a[..], first, m, m, last, a[m], cmp)
  {
    var i, j := first, last;
    m := m0;
    while i < j
      invariant first <= i <= m <= j <= last && a[m] == old(a[m0])
      invariant Rearranged(old(a[..]), a[..], first, last + 1)
      invariant Parted(a[..], first, i, j, last, a[m], cmp)
      decreases j - i, m != j
    {
      ghost var s := a[..];
      i, m, j := Turn(a, first, i, m, j, last, cmp);
      RearrangedAgain(old(a[..]), s, a[..], first, last + 1);
    }
  }

  // ----- the recursion

  ghost predicate SortedBetween<T>(s: seq<T>, first: int, last: int, cmp: Compare<T>)
    requires 0 <= first <= last + 1 <= |s|
  {
    Sorted(s[first..last + 1], cmp)
  }

  lemma Assemble<T(!new)>(r: seq<T>, s: seq<T>, t: seq<T>, u: seq<T>, first: int, m: int,
      last: int, cmp: Compare<T>)
    requires Preorder(cmp) && 0 <= first <= m <= last < |s| && Parted(s, first, m, m, last, s[m], cmp)
    requires Rearranged(s, t, first, m) && Rearranged(t, u, m + 1, last + 1)
    requires SortedBetween(t, first, m - 1, cmp) && SortedBetween(u, m + 1, last, cmp)
    requires Rearranged(r, s, first, last + 1)
    ensures Rearranged(r, u, first, last + 1) && SortedBetween(u, first, last, cmp)
  {
    Widen(s, t, first, m, first, last + 1);
    Widen(t, u, m + 1, last + 1, first, last + 1);
    RearrangedAgain(s, t, u, first, last + 1);
    RearrangedAgain(r, s, u, first, last + 1);
    AssembleOrder(s, t, u, first, m, last, cmp);
  }

  lemma AssembleOrder<T(!new)>(s: seq<T>, t: seq<T>, u: seq<T>, first: int, m: int, last: int,
      cmp: Compare<T>)
    requires Preorder(cmp) && 0 <= first <= m <= last < |s| && Parted(s, first, m, m, last, s[m], cmp)
    requires Rearranged(s, t, first, m) && Rearranged(t, u, m + 1, last + 1)
    requires SortedBetween(t, first, m - 1, cmp) && SortedBetween(u, m + 1, last, cmp)
    ensures SortedBetween(u, first, last, cmp)
  {
    var v := s[m];
    Sides(s, first, m, last, v, cmp);
    SameElements(s[first..m], t[first..m], v, cmp);
    KeptAfter(s, t, first, m, m, last);
    SameElements(t[m + 1..last + 1], u[m + 1..last + 1], v, cmp);
    KeptBefore(t, u, first, m, last);
    Join(u[first..m], v, u[m + 1..last + 1], cmp);
    assert u[first..last + 1] == u[first..m] + [v] + u[m + 1..last + 1];
  }

  lemma Sides<T>(s: seq<T>, first: int, m: int, last: int, v: T, cmp: Compare<T>)
    requires 0 <= first <= m <= last < |s| && Parted(s, first, m, m, last, v, cmp)
    ensures AllUpTo(s[first..m], v, cmp) && AllFrom(s[m + 1..last + 1], v, cmp)
  {
  }

  lemma KeptAfter<T>(s: seq<T>, t: seq<T>, lo: int, hi: int, m: int, last: int)
    requires Rearranged(s, t, lo, hi) && hi <= m <= last < |s|
    ensures t[m] == s[m] && t[m + 1..last + 1] == s[m + 1..last + 1]
  {
    assert t[m] == t[hi..][m - hi] == s[m];
    assert t[m + 1..last + 1] == t[hi..][m + 1 - hi..last + 1 - hi] == s[m + 1..last + 1];
  }

  lemma KeptBefore<T>(t: seq<T>, u: seq<T>, first: int, m: int, last: int)
    requires Rearranged(t, u, m + 1, last + 1) && 0 <= first <= m
    ensures u[first..m] == t[first..m] && u[m] == t[m]
  {
    assert u[first..m] == u[..m + 1][first..m] == t[..m + 1][first..m] == t[first..m];
    assert u[m] == u[..m + 1][m] == t[..m + 1][m];
  }

  lemma RearrangedAgain<T>(s: seq<T>, t: seq<T>, u: seq<T>, lo: int, hi: int)
    requires Rearranged(s, t, lo, hi) && Rearranged(t, u, lo, hi)
    ensures Rearranged(s, u, lo, hi)
  {
  }

  lemma NothingToSort<T>(s: seq<T>, k: int, cmp: Compare<T>)
    requires 0 <= k <= |s|
    ensures Rearranged(s, s, k, k) && SortedBetween(s, k, k - 1, cmp)
  {
  }

  lemma OneSorted<T>(s: seq<T>, k: int, cmp: Compare<T>)
    requires 0 <= k < |s|
    ensures Rearranged(s, s, k, k + 1) && SortedBetween(s, k, k, cmp)
  {
  }

  /** bscl_qsort: the stretch from first to last comes out sorted, with the elements it had; nothing else
      changes, whichever pivots are drawn. */
  method Sort<T(!new)>(a: array<T>, first: int, last: int, cmp: Compare<T>)
    requires Preorder(cmp) && 0 <= first <= last < a.Length
    modifies a
    ensures Rearranged(old(a[..]), a[..], first, last + 1) && SortedBetween(a[..], first, last, cmp)
    decreases last - first, 0
  {
    if first == last {
      OneSorted(a[..], first, cmp);
      return;
    }
    var m :| first <= m <= last;
    m := Partition(a, first, last, m, cmp);
    ghost var s := a[..];
    SortSide(a, first, m - 1, cmp);
    ghost var t := a[..];
    SortSide(a, m + 1, last, cmp);
    Assemble(old(a[..]), s, t, a[..], first, m, last, cmp);
  }

  /** The recursive call for one side of the pivot, if there is anything there. */
  method SortSide<T(!new)>(a: array<T>, lo: int, hi: int, cmp: Compare<T>)
    requires Preorder(cmp) && 0 <= lo <= hi + 1 <= a.Length
    modifies a
    ensures Rearranged(old(a[..]), a[..], lo, hi + 1) && SortedBetween(a[..], lo, hi, cmp)
    decreases hi - lo, 1
  {
    if lo <= hi {
      Sort(a, lo, hi, cmp);
    } else {
      NothingToSort(a[..], lo, cmp);
    }
  }
}
