/** Text as Python compares, splits and prints it, as far as versions need it. */
module Texts {
  import opened Prelude

  // a < b for strings: lexicographic by code point.
  predicate Less(a: string, b: string) {
    b != "" && (a == "" || a[0] < b[0] || (a[0] == b[0] && Less(a[1..], b[1..])))
  }

  lemma {:induction false} LessIrreflexive(a: string)
    ensures !Less(a, a)
  {
    if a != "" {
      LessIrreflexive(a[1..]);
    }
  }

  lemma {:induction false} LessTransitive(a: string, b: string, c: string)
    requires Less(a, b) && Less(b, c)
    ensures Less(a, c)
  {
    if a != "" && a[0] == b[0] == c[0] {
      LessTransitive(a[1..], b[1..], c[1..]);
    }
  }

  // Exactly one of a < b, a == b, b < a.
  lemma {:induction false} LessTrichotomy(a: string, b: string)
    ensures Less(a, b) || a == b || Less(b, a)
    ensures !(Less(a, b) && Less(b, a)) && (Less(a, b) || Less(b, a) ==> a != b)
  {
    if a != "" && b != "" && a[0] == b[0] {
      LessTrichotomy(a[1..], b[1..]);
      assert a == [a[0]] + a[1..] && b == [b[0]] + b[1..];
    } else if a == b {
      LessIrreflexive(a);
    }
  }

  // ----- Numbers

  predicate IsDigit(c: char) { '0' <= c <= '9' }

  predicate AllDigits(s: string) {
    forall i :: 0 <= i < |s| ==> IsDigit(s[i])
  }

  function Digit(c: char): nat
    requires IsDigit(c)
  {
    c as int - '0' as int
  }

  function Value(s: string): nat
    requires AllDigits(s)
  {
    if s == "" then 0 else 10 * Value(s[..|s| - 1]) + Digit(s[|s| - 1])
  }

  function Power10(n: nat): nat {
    if n == 0 then 1 else 10 * Power10(n - 1)
  }

  lemma {:induction false} ValueBelow(s: string)
    requires AllDigits(s)
    ensures Value(s) < Power10(|s|)
  {
    if s != "" {
      ValueBelow(s[..|s| - 1]);
    }
  }

  lemma {:induction false} ValueFromHead(s: string)
    requires AllDigits(s) && s != ""
    ensures Value(s) == Digit(s[0]) * Power10(|s| - 1) + Value(s[1..])
  {
    if |s| == 1 {
      assert s[..0] == "" && s[1..] == "";
    } else {
      var t := s[..|s| - 1];
      ValueFromHead(t);
      assert s[1..][..|s[1..]| - 1] == t[1..];
      TenTimes(Digit(t[0]), Power10(|t| - 1));
    }
  }

  lemma TenTimes(d: nat, p: nat)
    ensures 10 * (d * p) == d * (10 * p)
  {
  }

  // For numerals of the same length the lexicographic order is the numeric one.
  lemma {:induction false} LessIsNumeric(a: string, b: string)
    requires AllDigits(a) && AllDigits(b) && |a| == |b|
    ensures Less(a, b) <==> Value(a) < Value(b)
  {
    if a != "" {
      ValueFromHead(a);
      ValueFromHead(b);
      ValueBelow(a[1..]);
      ValueBelow(b[1..]);
      LessIsNumeric(a[1..], b[1..]);
      HeadDecides(Digit(a[0]), Digit(b[0]), Power10(|a| - 1), Value(a[1..]), Value(b[1..]));
    }
  }

  lemma StepUp(x: nat, y: nat, p: nat)
    requires x < y
    ensures x * p + p <= y * p
  {
    assert y * p == x * p + (y - x) * p;
    assert (y - x) * p == p + (y - x - 1) * p;
  }

  lemma HeadDecides(x: nat, y: nat, p: nat, r: nat, s: nat)
    requires r < p && s < p
    ensures x < y ==> x * p + r < y * p + s
    ensures x > y ==> x * p + r > y * p + s
  {
    if x < y {
      StepUp(x, y, p);
    } else if x > y {
      StepUp(y, x, p);
    }
  }

  // How a number is printed.
  function NatText(n: nat): (s: string)
    ensures s != "" && AllDigits(s) && Value(s) == n
  {
    var last := ['0' + (n % 10) as char];
    assert last[..0] == "" && Value(last) == n % 10;
    if n < 10 then last
    else
      var s := NatText(n / 10) + last;
      assert s[..|s| - 1] == NatText(n / 10);
      s
  }

  function IntText(n: int): string {
    if n >= 0 then NatText(n) else "-" + NatText(-n)
  }

  // White space of ASCII.
  predicate IsSpace(c: char) { c == ' ' || 9 <= c as int <= 13 || 28 <= c as int <= 31 }

  function StripLeft(s: string): (r: string)
    ensures |r| <= |s|
  {
    if s != "" && IsSpace(s[0]) then StripLeft(s[1..]) else s
  }

  function StripRight(s: string): (r: string)
    ensures |r| <= |s|
  {
    if s != "" && IsSpace(s[|s| - 1]) then StripRight(s[..|s| - 1]) else s
  }

  // Without white space at both ends.
  function Strip(s: string): string {
    StripRight(StripLeft(s))
  }

  // Single underscores may stand between digits.
  predicate IsNumeral(s: string) {
    && s != "" && IsDigit(s[0]) && IsDigit(s[|s| - 1])
    && (forall i :: 0 <= i < |s| ==> IsDigit(s[i]) || s[i] == '_')
    && (forall i :: 0 <= i < |s| - 1 ==> !(s[i] == '_' && s[i + 1] == '_'))
  }

  function WithoutUnderscores(s: string): string {
    if s == "" then ""
    else WithoutUnderscores(s[..|s| - 1]) + if s[|s| - 1] == '_' then "" else [s[|s| - 1]]
  }

  function NumeralValue(s: string): nat
    requires IsNumeral(s)
  {
    NumeralDigits(s);
    Value(WithoutUnderscores(s))
  }

  function SignedNumber(t: string): Option<int> {
    if t != "" && (t[0] == '-' || t[0] == '+') then
      if !IsNumeral(t[1..]) then None
      else Some(if t[0] == '-' then -(NumeralValue(t[1..]) as int) else NumeralValue(t[1..]))
    else if !IsNumeral(t) then None
    else Some(NumeralValue(t))
  }

  // How a number is read, for ASCII text; None is ValueError.
  function ParseInt(s: string): Option<int> {
    SignedNumber(Strip(s))
  }

  lemma {:induction false} NumeralDigits(s: string)
    requires forall i :: 0 <= i < |s| ==> IsDigit(s[i]) || s[i] == '_'
    ensures AllDigits(WithoutUnderscores(s))
  {
    if s != "" {
      NumeralDigits(s[..|s| - 1]);
    }
  }

  lemma {:induction false} NoUnderscores(s: string)
    requires AllDigits(s)
    ensures WithoutUnderscores(s) == s
  {
    if s != "" {
      NoUnderscores(s[..|s| - 1]);
    }
  }

  // Reading back what was printed; and nothing is not a number.
  lemma ParseIntInvertsText(n: nat)
    ensures ParseInt(NatText(n)) == Some(n)
    ensures ParseInt("") == None
  {
    var s := NatText(n);
    assert IsDigit(s[0]) && IsDigit(s[|s| - 1]);
    StripNothing(s);
    NoUnderscores(s);
    NumeralText(s);
  }

  // What is stripped has no white space at its ends.
  lemma StrippedEnds(s: string)
    requires Strip(s) == s && s != ""
    ensures !IsSpace(s[0]) && !IsSpace(s[|s| - 1])
  {
  }

  predicate AllSpaces(s: string) {
    forall i :: 0 <= i < |s| ==> 9 <= s[i] as int <= 13 || 28 <= s[i] as int <= 32
  }

  lemma {:induction false} StripLeftDrops(before: string, t: string)
    requires AllSpaces(before) && t != "" && !IsSpace(t[0])
    ensures StripLeft(before + t) == t
  {
    if before == "" {
      assert before + t == t;
    } else {
      assert (before + t)[1..] == before[1..] + t;
      StripLeftDrops(before[1..], t);
    }
  }

  lemma {:induction false} StripRightDrops(t: string, after: string)
    requires AllSpaces(after) && t != "" && !IsSpace(t[|t| - 1])
    ensures StripRight(t + after) == t
  {
    if after == "" {
      assert t + after == t;
    } else {
      var n := |after| - 1;
      assert (t + after)[..|t + after| - 1] == t + after[..n];
      StripRightDrops(t, after[..n]);
    }
  }

  lemma StripDrops(before: string, t: string, after: string)
    requires AllSpaces(before) && AllSpaces(after) && t != "" && !IsSpace(t[0]) && !IsSpace(t[|t| - 1])
    ensures Strip(before + t + after) == t
  {
    assert before + t + after == before + (t + after);
    StripLeftDrops(before, t + after);
    StripRightDrops(t, after);
  }

  lemma OneMoreBefore(s: string, rest: string, t: string)
    requires s != "" && s[1..] == rest + t
    ensures s == [s[0]] + rest + t
  {
  }

  lemma {:induction false} StripLeftParts(s: string) returns (before: string)
    ensures AllSpaces(before) && s == before + StripLeft(s)
  {
    before := "";
    if s != "" && IsSpace(s[0]) {
      var rest := StripLeftParts(s[1..]);
      before := [s[0]] + rest;
      OneMoreBefore(s, rest, StripLeft(s[1..]));
    }
  }

  lemma {:induction false} StripRightParts(s: string) returns (after: string)
    ensures AllSpaces(after) && s == StripRight(s) + after
  {
    if s != "" && IsSpace(s[|s| - 1]) {
      after := StripRightParts(s[..|s| - 1]);
      after := after + [s[|s| - 1]];
    } else {
      after := "";
    }
  }

  // White space around t.
  ghost predicate Padded(s: string, t: string) {
    exists before, after :: AllSpaces(before) && AllSpaces(after) && s == before + t + after
  }

  // A numeral, with a sign or without.
  ghost predicate Signed(t: string, n: int, digits: string) {
    && IsNumeral(digits)
    && ((t == digits && n == NumeralValue(digits)) || (t == "+" + digits && n == NumeralValue(digits))
        || (t == "-" + digits && n == -(NumeralValue(digits) as int)))
  }

  lemma SignedIff(t: string, n: int)
    ensures SignedNumber(t) == Some(n) <==> exists digits :: Signed(t, n, digits)
  {
    if SignedNumber(t) == Some(n) {
      if t[0] == '-' || t[0] == '+' {
        assert t == [t[0]] + t[1..];
        assert Signed(t, n, t[1..]);
      } else {
        assert Signed(t, n, t);
      }
    }
    if digits: string :| Signed(t, n, digits) {
      assert IsDigit(digits[0]);
      if t != digits {
        assert t[1..] == digits;
      }
    }
  }

  lemma PaddedStrips(s: string, t: string)
    requires Padded(s, t) && t != "" && !IsSpace(t[0]) && !IsSpace(t[|t| - 1])
    ensures Strip(s) == t
  {
    var before, after :| AllSpaces(before) && AllSpaces(after) && s == before + t + after;
    StripDrops(before, t, after);
  }

  lemma StripIsPadded(s: string)
    ensures Padded(s, Strip(s))
  {
    var before := StripLeftParts(s);
    var after := StripRightParts(StripLeft(s));
    assert before + (Strip(s) + after) == before + Strip(s) + after;
  }

  lemma SignedHasEnds(t: string, n: int, digits: string)
    requires Signed(t, n, digits)
    ensures t != "" && !IsSpace(t[0]) && !IsSpace(t[|t| - 1])
  {
    assert IsDigit(digits[0]) && t[|t| - 1] == digits[|digits| - 1];
  }

  // A text reads as n, for ASCII text, if and only if it is a numeral for n, with a sign or without and
  // with white space around it or not.
  lemma ParseIntIff(s: string, n: int)
    ensures ParseInt(s) == Some(n) <==> exists t, digits :: Padded(s, t) && Signed(t, n, digits)
  {
    SignedIff(Strip(s), n);
    StripIsPadded(s);
    if t, digits :| Padded(s, t) && Signed(t, n, digits) {
      SignedHasEnds(t, n, digits);
      PaddedStrips(s, t);
    }
  }

  lemma StripNothing(s: string)
    requires s == "" || (IsDigit(s[0]) && IsDigit(s[|s| - 1]))
    ensures Strip(s) == s
  {
  }

  lemma NumeralText(s: string)
    requires s != "" && AllDigits(s)
    ensures IsNumeral(s) && !(s[0] == '-' || s[0] == '+')
  {
    assert IsDigit(s[0]) && IsDigit(s[|s| - 1]);
  }

  // The parts between the separators.
  function Split(s: string, c: char): (parts: seq<string>)
    ensures parts != []
  {
    if s == "" then [""]
    else
      var rest := Split(s[1..], c);
      if s[0] == c then [""] + rest else [[s[0]] + rest[0]] + rest[1..]
  }

  lemma {:induction false} SplitWithout(s: string, c: char)
    requires c !in s
    ensures Split(s, c) == [s]
  {
    if s != "" {
      SplitWithout(s[1..], c);
      assert s == [s[0]] + s[1..];
    }
  }

  // The first part ends at the first separator.
  lemma {:induction false} SplitFirst(a: string, c: char, rest: string)
    requires c !in a
    ensures Split(a + [c] + rest, c) == [a] + Split(rest, c)
  {
    var s := a + [c] + rest;
    if a == "" {
      assert s[1..] == rest;
    } else {
      assert s[1..] == a[1..] + [c] + rest;
      SplitFirst(a[1..], c, rest);
      assert a == [a[0]] + a[1..];
    }
  }

  lemma {:induction false} SplitFirstPart(s: string, c: char)
    ensures c !in Split(s, c)[0] && |Split(s, c)[0]| <= |s|
    ensures Split(s, c)[0] == s <==> c !in s
  {
    if s != "" {
      SplitFirstPart(s[1..], c);
      assert s == [s[0]] + s[1..];
    }
  }

  // Without leading copies of a character.
  function DropLeading(s: string, c: char): string {
    if s != "" && s[0] == c then DropLeading(s[1..], c) else s
  }
}
