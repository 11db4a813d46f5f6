/**
 Requests that reach a list of stamps in another order than their stamps.

 shared/ai_validation.py reads the clock before it takes the lock, so a request can be overtaken.  The
 one that overtakes it prunes, by its own later stamp, what the overtaken one should still see.
 */
module Overtaking {
  import opened SlidingWindow

  // A request as it went by: its stamp, and whether it was accepted.
  datatype Entry = Entry(now: real, accepted: bool)

  // Some later request pruned the stamp of entry i from a list of this width.
  predicate Overtaken(h: seq<Entry>, i: nat, width: real)
    requires i < |h|
  {
    exists j :: i < j < |h| && h[i].now <= h[j].now - width
  }

  predicate ListedAt(h: seq<Entry>, i: nat, width: real)
    requires i < |h|
  {
    h[i].accepted && !Overtaken(h, i, width)
  }

  predicate OverlookedAt(h: seq<Entry>, i: nat, width: real, b: Bound)
    requires i < |h|
  {
    h[i].accepted && Overtaken(h, i, width) && b.Keeps(h[i].now)
  }

  // Of the first n entries: the accepted stamps, those of them that are left on a list of this width
  // at the end of h, and the number of those that are not although the bound keeps them.
  function Accepted(h: seq<Entry>, n: nat): seq<real>
    requires n <= |h|
  {
    if n == 0 then []
    else if h[n - 1].accepted then Accepted(h, n - 1) + [h[n - 1].now]
    else Accepted(h, n - 1)
  }

  function Listed(h: seq<Entry>, width: real, n: nat): seq<real>
    requires n <= |h|
  {
    if n == 0 then []
    else if ListedAt(h, n - 1, width) then Listed(h, width, n - 1) + [h[n - 1].now]
    else Listed(h, width, n - 1)
  }

  function Overlooked(h: seq<Entry>, width: real, b: Bound, n: nat): nat
    requires n <= |h|
  {
    if n == 0 then 0
    else Overlooked(h, width, b, n - 1) + if OverlookedAt(h, n - 1, width, b) then 1 else 0
  }

  // As above, of the stamps up to `end` only.
  function OverlookedUpTo(h: seq<Entry>, width: real, b: Bound, end: real, n: nat): nat
    requires n <= |h|
  {
    if n == 0 then 0
    else
      OverlookedUpTo(h, width, b, end, n - 1)
      + if OverlookedAt(h, n - 1, width, b) && h[n - 1].now <= end then 1 else 0
  }

  // ----- One more request

  lemma OvertakenOneMore(h: seq<Entry>, e: Entry, i: nat, width: real)
    requires i < |h|
    ensures Overtaken(h + [e], i, width) <==> Overtaken(h, i, width) || h[i].now <= e.now - width
  {
    var all := h + [e];
    if Overtaken(h, i, width) {
      var j :| i < j < |h| && h[i].now <= h[j].now - width;
      assert all[j] == h[j];
    }
    if h[i].now <= e.now - width {
      assert all[|h|] == e;
    }
  }

  lemma {:induction false} AcceptedOneMore(h: seq<Entry>, e: Entry, n: nat)
    requires n <= |h|
    ensures Accepted(h + [e], n) == Accepted(h, n)
  {
    if n > 0 {
      AcceptedOneMore(h, e, n - 1);
    }
  }

  // It prunes the list.
  lemma {:induction false} ListedOneMore(h: seq<Entry>, e: Entry, width: real, n: nat)
    requires n <= |h|
    ensures Listed(h + [e], width, n) == Recent(Listed(h, width, n), Open(e.now - width))
  {
    if n > 0 {
      ListedOneMore(h, e, width, n - 1);
      OvertakenOneMore(h, e, n - 1, width);
      RecentAppend(Listed(h, width, n - 1), h[n - 1].now, Open(e.now - width));
    }
  }

  lemma LastIsListed(h: seq<Entry>, e: Entry, width: real)
    ensures Listed(h + [e], width, |h| + 1) ==
            if e.accepted then Listed(h + [e], width, |h|) + [e.now] else Listed(h + [e], width, |h|)
  {
    assert (h + [e])[|h|] == e && !Overtaken(h + [e], |h|, width);
  }

  lemma ListedStep(h: seq<Entry>, e: Entry, width: real)
    ensures var kept := Recent(Listed(h, width, |h|), Open(e.now - width));
            Listed(h + [e], width, |h| + 1) == if e.accepted then kept + [e.now] else kept
  {
    ListedOneMore(h, e, width, |h|);
    LastIsListed(h, e, width);
  }

  // ----- Conservation

  // Beyond any bound, what was accepted is what is left on the list and what was overlooked.
  lemma {:induction false} ListedAndOverlooked(h: seq<Entry>, width: real, b: Bound, n: nat)
    requires n <= |h|
    ensures |Recent(Accepted(h, n), b)| == |Recent(Listed(h, width, n), b)| + Overlooked(h, width, b, n)
  {
    if n > 0 {
      ListedAndOverlooked(h, width, b, n - 1);
      RecentAppend(Accepted(h, n - 1), h[n - 1].now, b);
      RecentAppend(Listed(h, width, n - 1), h[n - 1].now, b);
    }
  }

  lemma AcceptedWindowStep(h: seq<Entry>, b: Bound, end: real, i: nat)
    requires i < |h|
    ensures InWindow(Accepted(h, i + 1), b, end) ==
            InWindow(Accepted(h, i), b, end) + if h[i].accepted && b.Keeps(h[i].now) && h[i].now <= end then 1 else 0
  {
    InWindowAppend(Accepted(h, i), h[i].now, b, end);
  }

  lemma ListedWindowStep(h: seq<Entry>, width: real, b: Bound, end: real, i: nat)
    requires i < |h|
    ensures InWindow(Listed(h, width, i + 1), b, end) ==
            InWindow(Listed(h, width, i), b, end)
            + if ListedAt(h, i, width) && b.Keeps(h[i].now) && h[i].now <= end then 1 else 0
  {
    InWindowAppend(Listed(h, width, i), h[i].now, b, end);
  }

  // The same within a window.
  lemma {:induction false} WindowAndOverlooked(h: seq<Entry>, width: real, b: Bound, end: real, n: nat)
    requires n <= |h|
    ensures InWindow(Accepted(h, n), b, end) ==
            InWindow(Listed(h, width, n), b, end) + OverlookedUpTo(h, width, b, end, n)
  {
    if n > 0 {
      var i := n - 1;
      WindowAndOverlooked(h, width, b, end, i);
      AcceptedWindowStep(h, b, end, i);
      ListedWindowStep(h, width, b, end, i);
    }
  }

  function OverlookedFrom(h: seq<Entry>, start: real, width: real): nat {
    OverlookedUpTo(h, width, Open(start), start + width, |h|)
  }

  // For a stamp t: each window it falls into has room, counting what is listed and what was overlooked.
  ghost predicate HasRoom(list: seq<real>, h: seq<Entry>, width: real, t: real, limit: int) {
    forall start :: start < t <= start + width ==>
                      WindowFrom(list, start, width) + OverlookedFrom(h, start, width) < limit
  }

  lemma RoomOneMoreIff(h: seq<Entry>, width: real, t: real, limit: int)
    ensures var acc := Accepted(h, |h|);
            WindowsWithin(acc + [t], width, limit) <==>
            WindowsWithin(acc, width, limit) && HasRoom(Listed(h, width, |h|), h, width, t, limit)
  {
    var acc, list := Accepted(h, |h|), Listed(h, width, |h|);
    WindowsOneMoreIff(acc, t, width, limit);
    forall start
      ensures WindowFrom(acc, start, width) == WindowFrom(list, start, width) + OverlookedFrom(h, start, width)
    {
      WindowAndOverlooked(h, width, Open(start), start + width, |h|);
    }
  }

  lemma {:induction false} UpToAtMostAll(h: seq<Entry>, width: real, b: Bound, end: real, n: nat)
    requires n <= |h|
    ensures OverlookedUpTo(h, width, b, end, n) <= Overlooked(h, width, b, n)
  {
    if n > 0 {
      UpToAtMostAll(h, width, b, end, n - 1);
    }
  }

  lemma {:induction false} SomeOverlookedIff(h: seq<Entry>, width: real, b: Bound, n: nat)
    requires n <= |h|
    ensures Overlooked(h, width, b, n) > 0 <==> exists i :: 0 <= i < n && OverlookedAt(h, i, width, b)
  {
    if n > 0 {
      SomeOverlookedIff(h, width, b, n - 1);
    }
  }

  // An accepted stamp, still after now - width, that a later request reached back beyond.
  ghost predicate Reaches(h: seq<Entry>, i: int, j: int, width: real, now: real) {
    0 <= i < j < |h| && h[i].accepted && h[i].now > now - width && h[i].now <= h[j].now - width
  }

  ghost predicate SomeReaches(h: seq<Entry>, width: real, now: real) {
    exists i, j :: Reaches(h, i, j, width, now)
  }

  lemma OverlookedIffReached(h: seq<Entry>, width: real, now: real)
    ensures Overlooked(h, width, Open(now - width), |h|) > 0 <==> SomeReaches(h, width, now)
  {
    var b := Open(now - width);
    SomeOverlookedIff(h, width, b, |h|);
    if i :| 0 <= i < |h| && OverlookedAt(h, i, width, b) {
      var j :| i < j < |h| && h[i].now <= h[j].now - width;
      assert Reaches(h, i, j, width, now);
    }
    if i, j :| Reaches(h, i, j, width, now) {
      assert OverlookedAt(h, i, width, b);
    }
  }

  lemma CountsLessIffReached(h: seq<Entry>, width: real, now: real)
    ensures |Recent(Listed(h, width, |h|), Open(now - width))| < |Recent(Accepted(h, |h|), Open(now - width))|
            <==> SomeReaches(h, width, now)
  {
    ListedAndOverlooked(h, width, Open(now - width), |h|);
    OverlookedIffReached(h, width, now);
  }

  // Nothing is overlooked by a request that is not overtaken by more than the width.
  lemma NothingBeforeIsOverlooked(h: seq<Entry>, width: real, now: real)
    requires forall j :: 0 <= j < |h| ==> h[j].now <= now
    ensures Overlooked(h, width, Open(now - width), |h|) == 0
  {
    OverlookedIffReached(h, width, now);
    forall i, j ensures !Reaches(h, i, j, width, now) {
    }
  }

  // ----- A narrow list against a wide one

  // No stamp is missing from the narrow list after one that is not.
  ghost predicate NoGap(h: seq<Entry>, narrow: real, wide: real, n: nat)
    requires n <= |h|
  {
    forall i, k :: 0 <= i < k < n && ListedAt(h, i, narrow) && ListedAt(h, k, wide) ==> ListedAt(h, k, narrow)
  }

  lemma NarrowWithinWide(h: seq<Entry>, i: nat, narrow: real, wide: real)
    requires i < |h| && narrow <= wide && ListedAt(h, i, narrow)
    ensures ListedAt(h, i, wide)
  {
    forall j | i < j < |h| ensures !(h[i].now <= h[j].now - wide) {
      assert !(h[i].now <= h[j].now - narrow);
    }
  }

  // A stamp that was overtaken is less than any listed before it.
  lemma OvertakenIsLess(h: seq<Entry>, i: nat, k: nat, width: real)
    requires i < k < |h| && ListedAt(h, i, width) && Overtaken(h, k, width)
    ensures h[k].now < h[i].now
  {
    var j :| k < j < |h| && h[k].now <= h[j].now - width;
    assert !(h[i].now <= h[j].now - width);
  }

  lemma {:induction false} LastListed(h: seq<Entry>, width: real, n: nat) returns (i: int)
    requires n <= |h|
    ensures i == -1 ==> Listed(h, width, n) == [] && forall k :: 0 <= k < n ==> !ListedAt(h, k, width)
    ensures i != -1 ==>
              && 0 <= i < n && ListedAt(h, i, width) && Listed(h, width, n) != []
              && Listed(h, width, n)[|Listed(h, width, n)| - 1] == h[i].now
  {
    if n == 0 {
      i := -1;
    } else if ListedAt(h, n - 1, width) {
      i := n - 1;
    } else {
      i := LastListed(h, width, n - 1);
    }
  }

  lemma SuffixAppendIff<T>(t: seq<T>, s: seq<T>, x: T)
    ensures IsSuffix(t + [x], s + [x]) <==> IsSuffix(t, s)
  {
    if IsSuffix(t, s) {
      SuffixAppend(t, s, x);
    }
    if IsSuffix(t + [x], s + [x]) {
      assert (t + [x])[..|t|] == t && (s + [x])[|s| - |t|..][..|t|] == s[|s| - |t|..];
    }
  }

  lemma GapOneMore(h: seq<Entry>, narrow: real, wide: real, k: nat)
    requires k < |h|
    ensures NoGap(h, narrow, wide, k + 1) <==>
            && NoGap(h, narrow, wide, k)
            && (ListedAt(h, k, wide) && !ListedAt(h, k, narrow) ==> forall i :: 0 <= i < k ==> !ListedAt(h, i, narrow))
  {
  }

  lemma WideOnly(h: seq<Entry>, narrow: real, wide: real, k: nat)
    requires k < |h| && ListedAt(h, k, wide) && !ListedAt(h, k, narrow)
    ensures IsSuffix(Listed(h, narrow, k), Listed(h, wide, k) + [h[k].now])
            <==> forall i :: 0 <= i < k ==> !ListedAt(h, i, narrow)
  {
    var minute, hour := Listed(h, narrow, k), Listed(h, wide, k) + [h[k].now];
    var i := LastListed(h, narrow, k);
    if i == -1 {
      assert hour[|hour|..] == [];
    } else {
      OvertakenIsLess(h, i, k, narrow);
      assert hour[|hour| - 1] != minute[|minute| - 1];
    }
  }

  lemma {:induction false} SuffixIffNoGap(h: seq<Entry>, narrow: real, wide: real, n: nat)
    requires n <= |h| && narrow <= wide
    ensures IsSuffix(Listed(h, narrow, n), Listed(h, wide, n)) <==> NoGap(h, narrow, wide, n)
  {
    if n > 0 {
      var k := n - 1;
      SuffixIffNoGap(h, narrow, wide, k);
      GapOneMore(h, narrow, wide, k);
      if ListedAt(h, k, narrow) {
        NarrowWithinWide(h, k, narrow, wide);
        SuffixAppendIff(Listed(h, narrow, k), Listed(h, wide, k), h[k].now);
      } else if ListedAt(h, k, wide) {
        WideOnly(h, narrow, wide, k);
        if forall i :: 0 <= i < k ==> !ListedAt(h, i, narrow) {
          assert NoGap(h, narrow, wide, k);
        }
      }
    }
  }
}
