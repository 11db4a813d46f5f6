/**
 Metric samples and window statistics of shared/alerting.py.

 `record_metric` cuts the stored list to its newer half whenever it grows past the maximum,
 so statistics are computed over a truncated list.  This module says exactly when that is
 as good as the full history.
 */
module AlertSamples {
  import opened Prelude
  import opened SlidingWindow

  datatype Sample = Sample(value: real, timestamp: real)

  // What is kept of more than `cap` samples: half of them, rounded up, because Python floors the
  // negative index.
  function Kept(cap: nat): nat { (cap + 1) / 2 }

  function Truncate<T>(s: seq<T>, cap: nat): seq<T> {
    if |s| > cap > 0 then Tail(s, Kept(cap)) else s
  }

  // What is stored after recording `all`, one sample at a time.
  function Stored<T>(all: seq<T>, cap: nat): seq<T> {
    if all == [] then [] else Truncate(Stored(all[..|all| - 1], cap) + [all[|all| - 1]], cap)
  }

  lemma TruncateKeepsSuffix<T>(stored: seq<T>, before: seq<T>, x: T, cap: nat)
    requires IsSuffix(stored, before) && |stored| >= Min(|before|, Kept(cap)) && (cap > 0 ==> |stored| <= cap)
    ensures var kept, all := Truncate(stored + [x], cap), before + [x];
            IsSuffix(kept, all) && |kept| >= Min(|all|, Kept(cap)) && (cap > 0 ==> |kept| <= cap)
  {
    SuffixAppend(stored, before, x);
    SuffixTail(stored + [x], before + [x], Kept(cap));
  }

  lemma {:induction false} StoredIsLongSuffix<T>(all: seq<T>, cap: nat)
    ensures IsSuffix(Stored(all, cap), all)
    ensures |Stored(all, cap)| >= Min(|all|, Kept(cap))
    ensures cap > 0 ==> |Stored(all, cap)| <= cap
  {
    if all != [] {
      var before, x := all[..|all| - 1], all[|all| - 1];
      assert all == before + [x];
      StoredIsLongSuffix(before, cap);
      TruncateKeepsSuffix(Stored(before, cap), before, x, cap);
    }
  }

  ghost predicate InOrder(s: seq<Sample>) {
    forall i, j :: 0 <= i < j < |s| ==> s[i].timestamp <= s[j].timestamp
  }

  // The samples from the cutoff on.
  function Since(s: seq<Sample>, cutoff: real): (r: seq<Sample>)
    ensures |r| <= |s|
  {
    if s == [] then [] else Since(s[..|s| - 1], cutoff) + if s[|s| - 1].timestamp >= cutoff then [s[|s| - 1]] else []
  }

  lemma {:induction false} SinceConcat(s: seq<Sample>, t: seq<Sample>, cutoff: real)
    ensures Since(s + t, cutoff) == Since(s, cutoff) + Since(t, cutoff)
  {
    if t == [] {
      assert s + t == s;
    } else {
      SinceConcat(s, t[..|t| - 1], cutoff);
      assert (s + t)[..|s + t| - 1] == s + t[..|t| - 1];
    }
  }

  lemma {:induction false} SinceKeepsAll(s: seq<Sample>, cutoff: real)
    requires forall i :: 0 <= i < |s| ==> s[i].timestamp >= cutoff
    ensures Since(s, cutoff) == s
  {
    if s != [] {
      SinceKeepsAll(s[..|s| - 1], cutoff);
    }
  }

  lemma {:induction false} SinceKeepsSome(s: seq<Sample>, cutoff: real) returns (i: nat)
    requires Since(s, cutoff) != []
    ensures i < |s| && s[i].timestamp >= cutoff
  {
    i := |s| - 1;
    if s[i].timestamp < cutoff {
      i := SinceKeepsSome(s[..|s| - 1], cutoff);
    }
  }

  lemma {:induction false} SinceMembers(s: seq<Sample>, cutoff: real)
    ensures forall x :: x in Since(s, cutoff) <==> x in s && x.timestamp >= cutoff
  {
    if s != [] {
      var n := |s| - 1;
      SinceMembers(s[..n], cutoff);
      assert s == s[..n] + [s[n]];
    }
  }

  // Forgetting `dropped` is harmless for a window exactly when the window holds no more
  // samples than are left.
  lemma WindowSurvivesIff(dropped: seq<Sample>, left: seq<Sample>, cutoff: real)
    requires InOrder(dropped + left)
    ensures Since(left, cutoff) == Since(dropped + left, cutoff) <==> |Since(dropped + left, cutoff)| <= |left|
  {
    SinceConcat(dropped, left, cutoff);
    if Since(dropped, cutoff) != [] {
      var i := SinceKeepsSome(dropped, cutoff);
      forall j | 0 <= j < |left| ensures left[j].timestamp >= cutoff {
        assert (dropped + left)[i].timestamp <= (dropped + left)[|dropped| + j].timestamp;
      }
      SinceKeepsAll(left, cutoff);
    }
  }

  // Whenever at most half the maximum of the samples ever recorded lie in a window, the
  // truncated list and the full history agree on that window; in general they agree
  // exactly when the window's samples fit in what is stored.
  lemma TruncationIsInvisible(all: seq<Sample>, cap: nat, cutoff: real)
    requires InOrder(all)
    ensures Since(Stored(all, cap), cutoff) == Since(all, cutoff) <==> |Since(all, cutoff)| <= |Stored(all, cap)|
    ensures |Since(all, cutoff)| <= Kept(cap) ==> Since(Stored(all, cap), cutoff) == Since(all, cutoff)
  {
    StoredIsLongSuffix(all, cap);
    var left := Stored(all, cap);
    var dropped := all[..|all| - |left|];
    assert all == dropped + left;
    WindowSurvivesIff(dropped, left, cutoff);
  }

  // ----- Statistics

  datatype Stats = Stats(count: nat, sum: real, avg: real, min: real, max: real, rate: real)

  function Sum(s: seq<Sample>): real {
    if s == [] then 0.0 else Sum(s[..|s| - 1]) + s[|s| - 1].value
  }

  function Least(s: seq<Sample>): real
    requires s != []
  {
    if |s| == 1 then s[0].value
    else
      var m, v := Least(s[..|s| - 1]), s[|s| - 1].value;
      if v < m then v else m
  }

  function Greatest(s: seq<Sample>): real
    requires s != []
  {
    if |s| == 1 then s[0].value
    else
      var m, v := Greatest(s[..|s| - 1]), s[|s| - 1].value;
      if v > m then v else m
  }

  function StatsOf(recent: seq<Sample>, windowSeconds: int): Stats {
    if recent == [] then Stats(0, 0.0, 0.0, 0.0, 0.0, 0.0)
    else
      Stats(|recent|, Sum(recent), Sum(recent) / |recent| as real, Least(recent), Greatest(recent),
            if windowSeconds > 0 then |recent| as real / windowSeconds as real else 0.0)
  }

  lemma StatsMean(recent: seq<Sample>, windowSeconds: int)
    requires recent != []
    ensures var st := StatsOf(recent, windowSeconds);
            && st.count == |recent| && st.sum == Sum(recent) && st.avg * |recent| as real == Sum(recent)
            && (windowSeconds > 0 ==> st.rate * windowSeconds as real == |recent| as real)
  {
    QuotientTimes(Sum(recent), |recent| as real);
    if windowSeconds > 0 {
      QuotientTimes(|recent| as real, windowSeconds as real);
    }
  }

  lemma QuotientTimes(a: real, b: real)
    requires b > 0.0
    ensures a / b * b == a
  {
  }

  lemma {:induction false} SumIsAdditive(s: seq<Sample>, t: seq<Sample>)
    ensures Sum(s + t) == Sum(s) + Sum(t)
    ensures |t| == 1 ==> Sum(t) == t[0].value
  {
    if t == [] {
      assert s + t == s;
    } else {
      var n := |t| - 1;
      SumIsAdditive(s, t[..n]);
      assert (s + t)[..|s + t| - 1] == s + t[..n];
    }
  }

  lemma {:induction false} SumBetween(s: seq<Sample>, lo: real, hi: real)
    requires forall i :: 0 <= i < |s| ==> lo <= s[i].value <= hi
    ensures lo * |s| as real <= Sum(s) <= hi * |s| as real
  {
    if s != [] {
      SumBetween(s[..|s| - 1], lo, hi);
      assert |s| as real == |s[..|s| - 1]| as real + 1.0;
    }
  }

  lemma {:induction false} ExtremesAreAttained(s: seq<Sample>)
    requires s != []
    ensures exists i :: 0 <= i < |s| && s[i].value == Least(s)
    ensures exists i :: 0 <= i < |s| && s[i].value == Greatest(s)
    ensures forall i :: 0 <= i < |s| ==> Least(s) <= s[i].value <= Greatest(s)
  {
    if |s| > 1 {
      var t := s[..|s| - 1];
      ExtremesAreAttained(t);
      var i :| 0 <= i < |t| && t[i].value == Least(t);
      var j :| 0 <= j < |t| && t[j].value == Greatest(t);
      var last := |s| - 1;
      assert s[if s[last].value < Least(t) then last else i].value == Least(s);
      assert s[if s[last].value > Greatest(t) then last else j].value == Greatest(s);
    } else {
      assert s[0].value == Least(s) == Greatest(s);
    }
  }

  lemma AverageIsBetweenExtremes(recent: seq<Sample>, windowSeconds: int)
    requires recent != []
    ensures var st := StatsOf(recent, windowSeconds);
            && st.count > 0 && st.avg * st.count as real == st.sum
            && st.min <= st.avg <= st.max
  {
    ExtremesAreAttained(recent);
    var lo, hi, n, total := Least(recent), Greatest(recent), |recent| as real, Sum(recent);
    SumBetween(recent, lo, hi);
    QuotientBetween(lo, hi, n, total);
  }

  lemma QuotientBetween(lo: real, hi: real, n: real, total: real)
    requires n > 0.0 && lo * n <= total <= hi * n
    ensures lo <= total / n <= hi && total / n * n == total
  {
    var q := total / n;
    QuotientTimes(total, n);
    Cancel(lo, q, n);
    Cancel(q, hi, n);
  }

  lemma Cancel(a: real, b: real, n: real)
    requires n > 0.0 && a * n <= b * n
    ensures a <= b
  {
  }
}
