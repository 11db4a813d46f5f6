/**
 Time-stamped histories and the part of them that a sliding window keeps.

 The limiters and the alert statistics all keep the stamps beyond a moving cutoff: strictly
 beyond it (Open) in shared/ai_validation.py, at or beyond it (Closed) in
 shared/api_auth_middleware.py and shared/alerting.py.
 */
module SlidingWindow {
  datatype Bound = Open(cutoff: real) | Closed(cutoff: real)
  {
    predicate Keeps(t: real) {
      if Open? then t > cutoff else t >= cutoff
    }

    // `later` keeps no more than this bound does.
    predicate NoTighterThan(later: Bound) {
      later.Open? == Open? && cutoff <= later.cutoff
    }

    function At(c: real): Bound {
      if Open? then Open(c) else Closed(c)
    }
  }

  ghost predicate Sorted(s: seq<real>) {
    forall i, j :: 0 <= i < j < |s| ==> s[i] <= s[j]
  }

  ghost predicate UpTo(s: seq<real>, now: real) {
    forall i :: 0 <= i < |s| ==> s[i] <= now
  }

  function Recent(s: seq<real>, b: Bound): (r: seq<real>)
    ensures |r| <= |s|
  {
    if s == [] then []
    else Recent(s[..|s| - 1], b) + if b.Keeps(s[|s| - 1]) then [s[|s| - 1]] else []
  }

  // The elements from `n` places before the end on; all of them when there are fewer.
  function Tail<T>(s: seq<T>, n: nat): seq<T> {
    if |s| <= n then s else s[|s| - n..]
  }

  ghost predicate IsSuffix<T>(t: seq<T>, s: seq<T>) {
    |t| <= |s| && t == s[|s| - |t|..]
  }

  // ----- Laws

  lemma SuffixAppend<T>(t: seq<T>, s: seq<T>, x: T)
    requires IsSuffix(t, s)
    ensures IsSuffix(t + [x], s + [x])
  {
    assert s + [x] == s[..|s| - |t|] + (t + [x]);
  }

  lemma SuffixTail<T>(t: seq<T>, s: seq<T>, n: nat)
    requires IsSuffix(t, s)
    ensures IsSuffix(Tail(t, n), s)
  {
    if |t| > n {
      assert t[|t| - n..] == s[|s| - n..];
    }
  }

  lemma RecentAppend(s: seq<real>, t: real, b: Bound)
    ensures Recent(s + [t], b) == Recent(s, b) + if b.Keeps(t) then [t] else []
  {
    assert (s + [t])[..|s|] == s;
  }

  lemma {:induction false} RecentConcat(s: seq<real>, t: seq<real>, b: Bound)
    ensures Recent(s + t, b) == Recent(s, b) + Recent(t, b)
  {
    if t == [] {
      assert s + t == s;
    } else {
      var n := |t| - 1;
      RecentConcat(s, t[..n], b);
      assert (s + t)[..|s + t| - 1] == s + t[..n];
    }
  }

  lemma {:induction false} RecentAll(s: seq<real>, b: Bound)
    requires forall i :: 0 <= i < |s| ==> b.Keeps(s[i])
    ensures Recent(s, b) == s
  {
    if s != [] {
      RecentAll(s[..|s| - 1], b);
    }
  }

  lemma {:induction false} RecentNone(s: seq<real>, b: Bound)
    requires forall i :: 0 <= i < |s| ==> !b.Keeps(s[i])
    ensures Recent(s, b) == []
  {
    if s != [] {
      RecentNone(s[..|s| - 1], b);
    }
  }

  // Pruning early never loses what a later bound would keep.
  lemma {:induction false} RecentOfRecent(s: seq<real>, early: Bound, later: Bound)
    requires early.NoTighterThan(later)
    ensures Recent(Recent(s, early), later) == Recent(s, later)
  {
    if s != [] {
      var n := |s| - 1;
      RecentOfRecent(s[..n], early, later);
      if early.Keeps(s[n]) {
        RecentAppend(Recent(s[..n], early), s[n], later);
      } else {
        assert Recent(s, early) == Recent(s[..n], early) && Recent(s, later) == Recent(s[..n], later);
      }
    }
  }

  ghost predicate KeptFrom(s: seq<real>, b: Bound, k: nat) {
    forall i :: 0 <= i < |s| ==> (b.Keeps(s[i]) <==> k <= i)
  }

  // In clock order, what a bound keeps is the part from some index on.
  lemma {:induction false} RecentIsFrom(s: seq<real>, b: Bound) returns (k: nat)
    requires Sorted(s)
    ensures k <= |s| && Recent(s, b) == s[k..] && KeptFrom(s, b, k)
  {
    var n := |s| - 1;
    if s == [] {
      k := 0;
    } else if b.Keeps(s[n]) {
      k := RecentIsFrom(s[..n], b);
      assert s[..n][k..] + [s[n]] == s[k..];
      assert KeptFrom(s, b, k) by {
        forall i | 0 <= i < n ensures b.Keeps(s[i]) <==> k <= i {
          assert s[..n][i] == s[i];
        }
      }
    } else {
      k := |s|;
      RecentNone(s, b);
    }
  }

  lemma RecentSorted(s: seq<real>, b: Bound)
    requires Sorted(s)
    ensures Sorted(Recent(s, b)) && IsSuffix(Recent(s, b), s)
    ensures forall i :: 0 <= i < |Recent(s, b)| ==> b.Keeps(Recent(s, b)[i])
  {
    var k := RecentIsFrom(s, b);
  }

  lemma RecentStaysSorted(s: seq<real>, b: Bound)
    requires Sorted(s)
    ensures Sorted(Recent(s, b))
  {
    RecentSorted(s, b);
  }

  lemma RecentOfKept(cut: seq<real>, kept: seq<real>, b: Bound)
    requires forall x, y :: x in cut && y in kept ==> x <= y
    ensures Recent(kept, b) == Tail(Recent(cut + kept, b), |kept|)
  {
    RecentConcat(cut, kept, b);
    if x :| x in cut && b.Keeps(x) {
      assert forall i :: 0 <= i < |kept| ==> kept[i] in kept;
      RecentAll(kept, b);
    } else {
      RecentNone(cut, b);
    }
  }

  // Keeping only the last n stamps and then pruning is pruning and then keeping the last n.
  lemma RecentOfTail(s: seq<real>, n: nat, b: Bound)
    requires Sorted(s)
    ensures Recent(Tail(s, n), b) == Tail(Recent(s, b), n)
  {
    if |s| > n {
      var cut, kept := s[..|s| - n], s[|s| - n..];
      assert s == cut + kept;
      RecentOfKept(cut, kept, b);
    }
  }

  lemma {:induction false} TighterKeepsFewer(s: seq<real>, wide: Bound, narrow: Bound)
    requires forall i :: 0 <= i < |s| && narrow.Keeps(s[i]) ==> wide.Keeps(s[i])
    ensures |Recent(s, narrow)| <= |Recent(s, wide)|
  {
    if s != [] {
      TighterKeepsFewer(s[..|s| - 1], wide, narrow);
    }
  }

  // Stamps of `s` in the window from `b` up to and including `end`.
  function InWindow(s: seq<real>, b: Bound, end: real): nat {
    if s == [] then 0
    else InWindow(s[..|s| - 1], b, end) + if b.Keeps(s[|s| - 1]) && s[|s| - 1] <= end then 1 else 0
  }

  lemma InWindowAppend(s: seq<real>, t: real, b: Bound, end: real)
    ensures InWindow(s + [t], b, end) == InWindow(s, b, end) + if b.Keeps(t) && t <= end then 1 else 0
  {
    assert (s + [t])[..|s|] == s;
  }

  // The window of width `w` after `start`.
  function WindowFrom(s: seq<real>, start: real, w: real): nat {
    InWindow(s, Open(start), start + w)
  }

  ghost predicate WindowsWithin(s: seq<real>, w: real, limit: int) {
    forall start :: WindowFrom(s, start, w) <= limit
  }

  // Only the windows that a new stamp falls into must have room for it.
  lemma WindowsOneMoreIff(s: seq<real>, t: real, w: real, limit: int)
    ensures WindowsWithin(s + [t], w, limit) <==>
            && WindowsWithin(s, w, limit)
            && forall start :: start < t <= start + w ==> WindowFrom(s, start, w) < limit
  {
    forall start
      ensures WindowFrom(s + [t], start, w) == WindowFrom(s, start, w) + if start < t <= start + w then 1 else 0
    {
      InWindowAppend(s, t, Open(start), start + w);
    }
  }

  // Each stamp, when it was appended, had at most `limit` stamps in the window of width `w`
  // ending at it (itself included).
  ghost predicate EachBounded(s: seq<real>, b: Bound, w: real, limit: nat) {
    forall n :: 0 <= n < |s| ==> BoundedAt(s, n, b, w, limit)
  }

  ghost predicate BoundedAt(s: seq<real>, n: nat, b: Bound, w: real, limit: nat)
    requires n < |s|
  {
    |Recent(s[..n + 1], b.At(s[n] - w))| <= limit
  }

  // Only the kind of bound matters here, not where it stands.
  lemma EachBoundedAt(s: seq<real>, b: Bound, cutoff: real, w: real, limit: nat)
    requires EachBounded(s, b, w, limit)
    ensures EachBounded(s, b.At(cutoff), w, limit)
  {
    forall n | 0 <= n < |s| ensures BoundedAt(s, n, b.At(cutoff), w, limit) {
      assert BoundedAt(s, n, b, w, limit);
    }
  }

  lemma BoundedInPrefix(s: seq<real>, before: seq<real>, n: nat, b: Bound, w: real, limit: nat)
    requires n < |before| <= |s| && before == s[..|before|]
    ensures BoundedAt(before, n, b, w, limit) <==> BoundedAt(s, n, b, w, limit)
  {
    assert before[..n + 1] == s[..n + 1];
  }

  lemma BoundedExtends(s: seq<real>, t: real, b: Bound, w: real, limit: nat)
    requires EachBounded(s, b, w, limit) && BoundedAt(s + [t], |s|, b, w, limit)
    ensures EachBounded(s + [t], b, w, limit)
  {
    forall n | 0 <= n < |s + [t]| ensures BoundedAt(s + [t], n, b, w, limit) {
      if n < |s| {
        BoundedInPrefix(s + [t], s, n, b, w, limit);
      }
    }
  }

  lemma {:induction false} InWindowAtMost(s: seq<real>, b: Bound, end: real)
    ensures InWindow(s, b, end) <= |Recent(s, b)|
  {
    if s != [] {
      InWindowAtMost(s[..|s| - 1], b, end);
    }
  }

  // Bounding the windows that end at a stamp bounds every window, wherever it is placed and in
  // whatever order the stamps came.
  lemma {:induction false} WindowsEverywhere(s: seq<real>, b: Bound, w: real, limit: nat)
    requires EachBounded(s, b, w, limit)
    ensures InWindow(s, b, b.cutoff + w) <= limit
  {
    if s != [] {
      var n := |s| - 1;
      if s[n] <= b.cutoff + w {
        WindowAtLast(s, b, w, limit);
      } else {
        var before := s[..n];
        forall m | 0 <= m < n ensures BoundedAt(before, m, b, w, limit) {
          BoundedInPrefix(s, before, m, b, w, limit);
        }
        WindowsEverywhere(before, b, w, limit);
      }
    }
  }

  lemma WindowAtLast(s: seq<real>, b: Bound, w: real, limit: nat)
    requires s != [] && s[|s| - 1] <= b.cutoff + w
    requires BoundedAt(s, |s| - 1, b, w, limit)
    ensures InWindow(s, b, b.cutoff + w) <= limit
  {
    InWindowAtMost(s, b, b.cutoff + w);
    TighterKeepsFewer(s, b.At(s[|s| - 1] - w), b);
    assert s[..|s|] == s;
  }

  lemma WindowsAnywhere(s: seq<real>, b: Bound, start: real, w: real, limit: nat)
    requires EachBounded(s, b, w, limit)
    ensures InWindow(s, b.At(start), start + w) <= limit
  {
    EachBoundedAt(s, b, start, w, limit);
    WindowsEverywhere(s, b.At(start), w, limit);
  }
}
