/** Python's `sorted` with a key: stable, by a strict order on the keys. */
module StableSort {
  import opened Prelude

  ghost predicate StrictWeakOrder<T(!new)>(less: (T, T) -> bool) {
    && (forall x :: !less(x, x))
    && (forall x, y :: less(x, y) ==> !less(y, x))
    && (forall x, y, z :: !less(y, x) && !less(z, y) ==> !less(z, x))
  }

  // x goes after every element it is not less than.
  function Insert<T>(s: seq<T>, x: T, less: (T, T) -> bool): (r: seq<T>)
    ensures multiset(r) == multiset(s) + multiset{x} && |r| == |s| + 1
  {
    if s == [] then [x]
    else if !less(x, s[|s| - 1]) then s + [x]
    else
      assert s == s[..|s| - 1] + [s[|s| - 1]];
      Insert(s[..|s| - 1], x, less) + [s[|s| - 1]]
  }

  function Sort<T>(s: seq<T>, less: (T, T) -> bool): (r: seq<T>)
    ensures multiset(r) == multiset(s) && |r| == |s|
  {
    if s == [] then []
    else
      assert s == s[..|s| - 1] + [s[|s| - 1]];
      Insert(Sort(s[..|s| - 1], less), s[|s| - 1], less)
  }

  ghost predicate Sorted<T>(s: seq<T>, less: (T, T) -> bool) {
    forall i, j :: 0 <= i < j < |s| ==> !less(s[j], s[i])
  }

  lemma {:induction false} InsertSorts<T(!new)>(s: seq<T>, x: T, less: (T, T) -> bool)
    requires StrictWeakOrder(less) && Sorted(s, less)
    ensures Sorted(Insert(s, x, less), less)
  {
    if s != [] {
      var last := s[|s| - 1];
      if less(x, last) {
        var t := Insert(s[..|s| - 1], x, less);
        InsertSorts(s[..|s| - 1], x, less);
        forall i | 0 <= i < |t| ensures !less(last, t[i]) {
          assert t[i] in multiset(t);
          assert t[i] == x || t[i] in s[..|s| - 1];
        }
      } else {
        forall i | 0 <= i < |s| ensures !less(x, s[i]) {
          assert !less(last, s[i]);
        }
      }
    }
  }

  lemma {:induction false} SortSorts<T(!new)>(s: seq<T>, less: (T, T) -> bool)
    requires StrictWeakOrder(less)
    ensures Sorted(Sort(s, less), less)
  {
    if s != [] {
      SortSorts(s[..|s| - 1], less);
      InsertSorts(Sort(s[..|s| - 1], less), s[|s| - 1], less);
    }
  }

  // ----- The first element of the sorted list that passes a test

  function FirstPassing<T>(s: seq<T>, test: T -> bool): Option<T> {
    if s == [] then None else if test(s[0]) then Some(s[0]) else FirstPassing(s[1..], test)
  }

  lemma {:induction false} FirstPassingAppend<T>(s: seq<T>, t: seq<T>, test: T -> bool)
    ensures FirstPassing(s + t, test) ==
            if FirstPassing(s, test).Some? then FirstPassing(s, test) else FirstPassing(t, test)
  {
    if s == [] {
      assert s + t == t;
    } else {
      assert (s + t)[1..] == s[1..] + t;
      FirstPassingAppend(s[1..], t, test);
    }
  }

  lemma {:induction false} FirstPassingIsIn<T>(s: seq<T>, test: T -> bool)
    ensures FirstPassing(s, test).Some? ==> FirstPassing(s, test).value in s && test(FirstPassing(s, test).value)
    ensures FirstPassing(s, test).None? ==> forall x :: x in s ==> !test(x)
  {
    if s != [] {
      FirstPassingIsIn(s[1..], test);
      assert s == [s[0]] + s[1..];
    }
  }

  // What the newcomer does to the choice: it takes over only by coming strictly first.
  function Better<T>(best: Option<T>, x: T, less: (T, T) -> bool, test: T -> bool): Option<T> {
    if test(x) && (best.None? || less(x, best.value)) then Some(x) else best
  }

  lemma {:induction false} InsertChoice<T(!new)>(s: seq<T>, x: T, less: (T, T) -> bool, test: T -> bool)
    requires StrictWeakOrder(less) && Sorted(s, less)
    ensures FirstPassing(Insert(s, x, less), test) == Better(FirstPassing(s, test), x, less, test)
  {
    FirstPassingIsIn(s, test);
    if s == [] {
    } else {
      var init, last := s[..|s| - 1], s[|s| - 1];
      assert s == init + [last];
      if less(x, last) {
        InsertChoice(init, x, less, test);
        FirstPassingAppend(init, [last], test);
        FirstPassingAppend(Insert(init, x, less), [last], test);
      } else {
        FirstPassingAppend(s, [x], test);
      }
    }
  }

  // One pass over the unsorted list, keeping the earlier of equals.
  function Choice<T>(s: seq<T>, less: (T, T) -> bool, test: T -> bool): Option<T> {
    if s == [] then None else Better(Choice(s[..|s| - 1], less, test), s[|s| - 1], less, test)
  }

  // Sorting first and then taking the first that passes is that one pass.
  lemma {:induction false} SortThenFirst<T(!new)>(s: seq<T>, less: (T, T) -> bool, test: T -> bool)
    requires StrictWeakOrder(less)
    ensures FirstPassing(Sort(s, less), test) == Choice(s, less, test)
  {
    if s != [] {
      SortThenFirst(s[..|s| - 1], less, test);
      SortSorts(s[..|s| - 1], less);
      InsertChoice(Sort(s[..|s| - 1], less), s[|s| - 1], less, test);
    }
  }

  // The chosen element passes, nothing that passes comes before it in the order, and what
  // ties with it and passes stands later in the list.
  ghost predicate IsEarliestBest<T>(s: seq<T>, k: int, less: (T, T) -> bool, test: T -> bool) {
    && 0 <= k < |s| && test(s[k])
    && (forall i :: 0 <= i < |s| && test(s[i]) ==> !less(s[i], s[k]))
    && (forall i :: 0 <= i < k && test(s[i]) ==> less(s[k], s[i]))
  }

  lemma {:induction false} ChoiceIsEarliestBest<T(!new)>(s: seq<T>, less: (T, T) -> bool, test: T -> bool)
    requires StrictWeakOrder(less)
    ensures Choice(s, less, test).Some? ==>
              exists k :: IsEarliestBest(s, k, less, test) && s[k] == Choice(s, less, test).value
    ensures Choice(s, less, test).None? <==> forall i :: 0 <= i < |s| ==> !test(s[i])
  {
    if s != [] {
      var n := |s| - 1;
      var before, x := s[..n], s[n];
      ChoiceIsEarliestBest(before, less, test);
      var best := Choice(before, less, test);
      if best.Some? {
        var k :| IsEarliestBest(before, k, less, test) && before[k] == best.value;
        BestExtends(before, x, k, less, test);
        assert s == before + [x];
      } else if test(x) {
        assert IsEarliestBest(s, n, less, test);
      }
    }
  }

  lemma BestExtends<T(!new)>(before: seq<T>, x: T, k: int, less: (T, T) -> bool, test: T -> bool)
    requires StrictWeakOrder(less) && IsEarliestBest(before, k, less, test)
    ensures IsEarliestBest(before + [x], if test(x) && less(x, before[k]) then |before| else k, less, test)
  {
    var s := before + [x];
    if test(x) && less(x, before[k]) {
      forall i | 0 <= i < |before| && test(s[i]) ensures less(x, s[i]) && !less(s[i], x) {
        assert !less(before[i], before[k]);
      }
    } else {
      forall i | 0 <= i < |s| && test(s[i]) ensures !less(s[i], s[k]) {
        assert i < |before| ==> s[i] == before[i];
      }
    }
  }
}
