/** The array operations the scripts chain together: `filter`, `find`,
    `pop()` (the last element), `slice(-2, -1)[0]` (the second-to-last)
    and `sort` with a comparator. */
module Lists {
  import opened Wrappers

  /** `s.filter(p)`: the elements satisfying `p`, in their original order. */
  function Filter<T(!new)>(s: seq<T>, p: T -> bool): (r: seq<T>)
    ensures |r| <= |s|
    ensures forall x :: x in r <==> x in s && p(x)
    ensures forall x {:trigger multiset(r)[x]} :: multiset(r)[x] == if p(x) then multiset(s)[x] else 0
  {
    if s == [] then []
    else
      assert s[..|s| - 1] + [s[|s| - 1]] == s;
      Filter(s[..|s| - 1], p) + (if p(s[|s| - 1]) then [s[|s| - 1]] else [])
  }

  /** Filtering keeps the order of the list: filtering a concatenation
      concatenates the filtered parts. */
  lemma {:induction false} FilterConcat<T(!new)>(a: seq<T>, b: seq<T>, p: T -> bool)
    ensures Filter(a + b, p) == Filter(a, p) + Filter(b, p)
    decreases |b|
  {
    if b == [] {
      assert a + b == a;
    } else {
      var init := b[..|b| - 1];
      var y := b[|b| - 1];
      assert b == init + [y];
      assert a + b == (a + init) + [y];
      FilterSnoc(a + init, y, p);
      FilterSnoc(init, y, p);
      FilterConcat(a, init, p);
    }
  }

  /** Filtering a list with one more element at its end. */
  lemma FilterSnoc<T(!new)>(s: seq<T>, y: T, p: T -> bool)
    ensures Filter(s + [y], p) == Filter(s, p) + (if p(y) then [y] else [])
  {
    assert (s + [y])[..|s|] == s;
  }

  /** Two tests that agree on the elements of a list filter it alike. */
  lemma {:induction false} FilterAgree<T(!new)>(s: seq<T>, p: T -> bool, q: T -> bool)
    requires forall x :: x in s ==> p(x) == q(x)
    ensures Filter(s, p) == Filter(s, q)
  {
    if s != [] {
      assert s[|s| - 1] in s;
      FilterAgree(s[..|s| - 1], p, q);
    }
  }

  /** `s.pop()` on a fresh array: its last element, absent when empty. */
  function Last<T>(s: seq<T>): Option<T> {
    if s == [] then None else Some(s[|s| - 1])
  }

  /** `s.slice(-2, -1)[0]`: the second-to-last element, absent when there
      are fewer than two. */
  function SecondToLast<T>(s: seq<T>): Option<T> {
    if |s| < 2 then None else Some(s[|s| - 2])
  }

  /** `s.find(p)`: the first element satisfying `p`, absent when none does. */
  function Find<T(!new)>(s: seq<T>, p: T -> bool): (r: Option<T>)
    ensures r.None? <==> forall x :: x in s ==> !p(x)
    ensures r.Some? ==> r.value in s && p(r.value)
  {
    if s == [] then None
    else if p(s[0]) then Some(s[0])
    else Find(s[1..], p)
  }

  /** `s.map(f)` where `f` may throw: every result in order, or the error
      of the first element `f` fails on. */
  function MapAll<A, B(==), E(==)>(s: seq<A>, f: A -> Result<B, E>): (r: Result<seq<B>, E>)
    ensures r.Ok? <==> forall i :: 0 <= i < |s| ==> f(s[i]).Ok?
    ensures r.Ok? ==> |r.value| == |s| && forall i :: 0 <= i < |s| ==> f(s[i]) == Ok(r.value[i])
    ensures r.Err? ==> exists i :: 0 <= i < |s| && f(s[i]) == Err(r.error)
  {
    if s == [] then Ok([])
    else
      match f(s[0])
      case Err(e) => Err(e)
      case Ok(x) =>
        match MapAll(s[1..], f)
        case Err(e) =>
          var j :| 0 <= j < |s| - 1 && f(s[1..][j]) == Err(e);
          assert s[1..][j] == s[j + 1];
          Err(e)
        case Ok(rest) =>
          assert forall i :: 0 <= i < |s| ==> f(s[i]) == Ok(([x] + rest)[i]) by {
            forall i | 0 <= i < |s| ensures f(s[i]) == Ok(([x] + rest)[i]) {
              if i > 0 {
                assert s[i] == s[1..][i - 1];
              }
            }
          }
          Ok([x] + rest)
  }

  /** The index of the first element satisfying `p`, absent when none does. */
  function FindIndex<T>(s: seq<T>, p: T -> bool): (r: Option<nat>)
    ensures r.None? <==> forall i :: 0 <= i < |s| ==> !p(s[i])
    ensures r.Some? ==> r.value < |s| && p(s[r.value])
    ensures r.Some? ==> forall j :: 0 <= j < r.value ==> !p(s[j])
  {
    if s == [] then None
    else if p(s[0]) then Some(0)
    else
      match FindIndex(s[1..], p)
      case None => None
      case Some(i) => Some(i + 1)
  }

  /** A scan that stops at the first element satisfying `p` stops where
      `FindIndex` points. */
  lemma FindIndexAt<T>(s: seq<T>, p: T -> bool, i: nat)
    requires i < |s| && p(s[i])
    requires forall j :: 0 <= j < i ==> !p(s[j])
    ensures FindIndex(s, p) == Some(i)
  {
  }

  /** The element right after the first one satisfying `p`: absent when
      none does or when that one is the last. */
  function NextAfterFirst<T>(s: seq<T>, p: T -> bool): Option<T> {
    match FindIndex(s, p)
    case None => None
    case Some(i) => if i + 1 < |s| then Some(s[i + 1]) else None
  }

  /** `le` is total and transitive (so also reflexive): a comparator
      `(a, b) => cmp(a, b) <= 0` that `sort` can rely on. */
  ghost predicate TotalPreorder<T(!new)>(le: (T, T) -> bool) {
    && (forall a, b :: le(a, b) || le(b, a))
    && (forall a, b, c :: le(a, b) && le(b, c) ==> le(a, c))
  }

  predicate Sorted<T>(s: seq<T>, le: (T, T) -> bool) {
    forall i, j :: 0 <= i < j < |s| ==> le(s[i], s[j])
  }

  /** Places `x` after every element that is not above it. */
  function Insert<T(!new)>(s: seq<T>, x: T, le: (T, T) -> bool): (r: seq<T>)
    requires TotalPreorder(le) && Sorted(s, le)
    ensures Sorted(r, le)
    ensures multiset(r) == multiset(s) + multiset{x}
  {
    if s == [] || le(s[|s| - 1], x) then
      AppendSorted(s, x, le);
      s + [x]
    else
      var y := s[|s| - 1];
      var init := s[..|s| - 1];
      assert init + [y] == s;
      var r' := Insert(init, x, le);
      BelowLast(r', init, x, y, le);
      AppendSorted(r', y, le);
      r' + [y]
  }

  /** Appending an element that no element is above keeps a list sorted. */
  lemma AppendSorted<T>(s: seq<T>, y: T, le: (T, T) -> bool)
    requires Sorted(s, le)
    requires forall i :: 0 <= i < |s| ==> le(s[i], y)
    ensures Sorted(s + [y], le)
  {
  }

  /** The elements of `init` and `x` are all below `y` when `init + [y]` is
      sorted and `x` is below `y`; so are those of any rearrangement. */
  lemma BelowLast<T(!new)>(r: seq<T>, init: seq<T>, x: T, y: T, le: (T, T) -> bool)
    requires TotalPreorder(le) && Sorted(init + [y], le) && !le(y, x)
    requires multiset(r) == multiset(init) + multiset{x}
    ensures forall i :: 0 <= i < |r| ==> le(r[i], y)
  {
    forall i | 0 <= i < |r| ensures le(r[i], y) {
      assert r[i] in multiset(r);
      if r[i] != x {
        assert r[i] in init;
        var k :| 0 <= k < |init| && init[k] == r[i];
        assert (init + [y])[k] == r[i] && (init + [y])[|init|] == y;
      }
    }
  }

  /** `s.sort(cmp)`: a sorted permutation of `s`, stable by
      `InsertionSortStable`. */
  function InsertionSort<T(!new)>(s: seq<T>, le: (T, T) -> bool): (r: seq<T>)
    requires TotalPreorder(le)
    ensures Sorted(r, le)
    ensures multiset(r) == multiset(s)
  {
    if s == [] then []
    else
      assert s[..|s| - 1] + [s[|s| - 1]] == s;
      Insert(InsertionSort(s[..|s| - 1], le), s[|s| - 1], le)
  }

  /** The elements that `le` ranks level with `k`, below and above it both. */
  function LevelWith<T>(le: (T, T) -> bool, k: T): T -> bool {
    (z: T) => le(z, k) && le(k, z)
  }

  /** Inserting `x` puts it after every element level with it, so among
      the elements level with any `k` the old ones keep their order and
      `x` comes last. */
  lemma {:induction false} InsertStable<T(!new)>(s: seq<T>, x: T, le: (T, T) -> bool, k: T)
    requires TotalPreorder(le) && Sorted(s, le)
    ensures Filter(Insert(s, x, le), LevelWith(le, k))
         == Filter(s, LevelWith(le, k)) + (if LevelWith(le, k)(x) then [x] else [])
    decreases |s|
  {
    var e := LevelWith(le, k);
    if s == [] || le(s[|s| - 1], x) {
      FilterSnoc(s, x, e);
    } else {
      var y := s[|s| - 1];
      var init := s[..|s| - 1];
      assert init + [y] == s;
      assert Sorted(init, le);
      var r' := Insert(init, x, le);
      assert Insert(s, x, le) == r' + [y];
      InsertStable(init, x, le, k);
      FilterSnoc(r', y, e);
      FilterSnoc(init, y, e);
      var fi := Filter(init, e);
      var xs: seq<T> := if e(x) then [x] else [];
      var ys: seq<T> := if e(y) then [y] else [];
      assert Filter(Insert(s, x, le), e) == fi + xs + ys;
      assert Filter(s, e) == fi + ys;
      NotBothLevel(le, k, x, y);
      SwapApart(fi, xs, ys);
    }
  }

  /** An element above `x` is never level with the same `k` as `x`. */
  lemma NotBothLevel<T(!new)>(le: (T, T) -> bool, k: T, x: T, y: T)
    requires TotalPreorder(le) && !le(y, x)
    ensures !(LevelWith(le, k)(x) && LevelWith(le, k)(y))
  {
  }

  /** Two pieces of which one is empty can trade places. */
  lemma SwapApart<T>(s: seq<T>, a: seq<T>, b: seq<T>)
    requires a == [] || b == []
    ensures s + a + b == s + b + a
  {
  }

  /** `sort` is stable: the elements level with any `k` keep the order
      they had in the input. */
  lemma {:induction false} InsertionSortStable<T(!new)>(s: seq<T>, le: (T, T) -> bool, k: T)
    requires TotalPreorder(le)
    ensures Filter(InsertionSort(s, le), LevelWith(le, k)) == Filter(s, LevelWith(le, k))
    decreases |s|
  {
    if s != [] {
      var init := s[..|s| - 1];
      var x := s[|s| - 1];
      assert init + [x] == s;
      InsertionSortStable(init, le, k);
      InsertStable(InsertionSort(init, le), x, le, k);
      FilterSnoc(init, x, LevelWith(le, k));
    }
  }

  /** Sorting keeps the elements: the same ones, each as often. */
  lemma SortedMembers<T(!new)>(s: seq<T>, le: (T, T) -> bool)
    requires TotalPreorder(le)
    ensures |InsertionSort(s, le)| == |s|
    ensures forall x :: x in InsertionSort(s, le) <==> x in s
  {
    var r := InsertionSort(s, le);
    assert |r| == |multiset(r)| == |multiset(s)| == |s|;
    forall x ensures x in r <==> x in s {
      assert x in r <==> x in multiset(r);
      assert x in s <==> x in multiset(s);
    }
  }

  /** In a sorted list the last element is a maximum. */
  lemma {:induction false} LastIsMaximum<T(!new)>(s: seq<T>, le: (T, T) -> bool)
    requires TotalPreorder(le) && Sorted(s, le) && s != []
    ensures forall x :: x in s ==> le(x, s[|s| - 1])
  {
    forall x | x in s ensures le(x, s[|s| - 1]) {
      var i :| 0 <= i < |s| && s[i] == x;
      if i == |s| - 1 {
        assert le(x, x) || le(x, x);
      }
    }
  }

  /** In a sorted list of two or more the second-to-last element is below
      the last and above every element before it. */
  lemma SecondToLastBounds<T(!new)>(s: seq<T>, le: (T, T) -> bool)
    requires TotalPreorder(le) && Sorted(s, le) && |s| >= 2
    ensures le(s[|s| - 2], s[|s| - 1])
    ensures forall i :: 0 <= i < |s| - 1 ==> le(s[i], s[|s| - 2])
  {
    var r := s[|s| - 2];
    assert le(r, r) || le(r, r);
  }

  /** Filtering keeps a list sorted. */
  lemma {:induction false} FilterSorted<T(!new)>(s: seq<T>, p: T -> bool, le: (T, T) -> bool)
    ensures Sorted(s, le) ==> Sorted(Filter(s, p), le)
  {
    if s != [] && Sorted(s, le) {
      var init := s[..|s| - 1];
      var y := s[|s| - 1];
      assert Sorted(init, le);
      FilterSorted(init, p, le);
      var f := Filter(init, p);
      if p(y) {
        forall i | 0 <= i < |f| ensures le(f[i], y) {
          assert f[i] in init;
          var k :| 0 <= k < |init| && init[k] == f[i];
          assert s[k] == f[i];
        }
      }
    }
  }

  /** The last element satisfying `p` (`filter(p).pop()`): absent exactly
      when no element satisfies `p`; otherwise a member satisfying `p`
      and, when the list is sorted, a maximum of those members. */
  lemma LastOfFilter<T(!new)>(s: seq<T>, p: T -> bool, le: (T, T) -> bool)
    ensures Last(Filter(s, p)).None? <==> forall x :: x in s ==> !p(x)
    ensures Last(Filter(s, p)).Some? ==>
      && Last(Filter(s, p)).value in s && p(Last(Filter(s, p)).value)
      && (TotalPreorder(le) && Sorted(s, le) ==>
            forall x :: x in s && p(x) ==> le(x, Last(Filter(s, p)).value))
  {
    var f := Filter(s, p);
    if f != [] {
      assert f[|f| - 1] in f;
      if TotalPreorder(le) && Sorted(s, le) {
        FilterSorted(s, p, le);
        LastIsMaximum(f, le);
      }
    } else {
      forall x | x in s ensures !p(x) {
        assert x !in f;
      }
    }
  }
}
