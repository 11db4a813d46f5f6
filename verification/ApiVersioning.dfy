/**
 Version order, printing, parsing and negotiation of shared/api_versioning.py.
 */
module ApiVersioning {
  import opened Prelude
  import opened Texts
  import StableSort

  // The dates and the deprecation flag take no part in equality or order.
  datatype ApiVersion = ApiVersion(major: int, minor: int, patch: int, prerelease: Option<string>)
  {
    // Python truthiness of the prerelease: None and "" are both false.
    predicate IsPrerelease() { prerelease.Some? && prerelease.value != "" }
  }

  // ----- Order

  // __lt__
  predicate Lt(a: ApiVersion, b: ApiVersion) {
    if a.major != b.major then a.major < b.major
    else if a.minor != b.minor then a.minor < b.minor
    else if a.patch != b.patch then a.patch < b.patch
    else if a.IsPrerelease() && !b.IsPrerelease() then false
    else if !a.IsPrerelease() && b.IsPrerelease() then true
    else a.IsPrerelease() && Less(a.prerelease.value, b.prerelease.value)
  }

  // __gt__, __le__, __ge__
  predicate Gt(a: ApiVersion, b: ApiVersion) { a != b && !Lt(a, b) }
  predicate Le(a: ApiVersion, b: ApiVersion) { Lt(a, b) || a == b }
  predicate Ge(a: ApiVersion, b: ApiVersion) { Gt(a, b) || a == b }

  // Different versions that the order cannot tell apart: one has no prerelease, the other
  // the empty one.
  predicate Confusable(a: ApiVersion, b: ApiVersion) {
    a != b && a.(prerelease := None) == b.(prerelease := None) && !a.IsPrerelease() && !b.IsPrerelease()
  }

  predicate Proper(v: ApiVersion) { v.prerelease != Some("") }

  lemma LtIsStrict(a: ApiVersion, b: ApiVersion)
    ensures !Lt(a, a)
    ensures !(Lt(a, b) && Lt(b, a))
  {
    if a.IsPrerelease() && b.IsPrerelease() {
      LessTrichotomy(a.prerelease.value, b.prerelease.value);
    }
    if a.IsPrerelease() {
      LessIrreflexive(a.prerelease.value);
    }
  }

  lemma LtIsTransitive(a: ApiVersion, b: ApiVersion, c: ApiVersion)
    requires Lt(a, b) && Lt(b, c)
    ensures Lt(a, c)
  {
    if a.IsPrerelease() && b.IsPrerelease() && c.IsPrerelease() {
      if Less(a.prerelease.value, b.prerelease.value) && Less(b.prerelease.value, c.prerelease.value) {
        LessTransitive(a.prerelease.value, b.prerelease.value, c.prerelease.value);
      }
    }
  }

  // The numbers decide, the major one first, then the minor one, then the patch.
  lemma NumbersDecide(a: ApiVersion, b: ApiVersion)
    requires || a.major < b.major
             || (a.major == b.major && a.minor < b.minor)
             || (a.major == b.major && a.minor == b.minor && a.patch < b.patch)
    ensures Lt(a, b) && Le(a, b) && Gt(b, a) && Ge(b, a)
    ensures !Lt(b, a) && !Le(b, a) && !Gt(a, b) && !Ge(a, b)
  {
  }

  // With the same numbers a prerelease is decided by its text, as numbers if both are three digits, say.
  lemma PrereleasesDecide(v: ApiVersion, x: string, y: string)
    requires x != "" && y != ""
    ensures Lt(v.(prerelease := Some(x)), v.(prerelease := Some(y))) <==> Less(x, y)
    ensures AllDigits(x) && AllDigits(y) && |x| == |y| ==>
              (Lt(v.(prerelease := Some(x)), v.(prerelease := Some(y))) <==> Value(x) < Value(y))
  {
    if AllDigits(x) && AllDigits(y) && |x| == |y| {
      LessIsNumeric(x, y);
    }
  }

  // The comparisons form a total order consistent with equality, each operator agreeing
  // with the others, exactly on the pairs that are not confusable.
  lemma TotalIffNotConfusable(a: ApiVersion, b: ApiVersion)
    ensures !Confusable(a, b) <==> (Lt(a, b) || a == b || Lt(b, a))
    ensures !Confusable(a, b) <==> (Gt(a, b) <==> Lt(b, a))
    ensures !Confusable(a, b) ==> (Ge(a, b) <==> Le(b, a)) && !(Gt(a, b) && Gt(b, a))
    ensures Confusable(a, b) ==> Gt(a, b) && Gt(b, a)
  {
    LtIsStrict(a, b);
    LtIsStrict(b, a);
    if a.IsPrerelease() && b.IsPrerelease() {
      LessTrichotomy(a.prerelease.value, b.prerelease.value);
    }
  }

  // With proper prereleases nothing is confusable; a release comes before its prereleases,
  // the reverse of section 11 of Semantic Versioning 2.0.0.
  lemma ReleaseSortsBelowItsPrereleases(release: ApiVersion, pre: string)
    requires release.prerelease.None? && pre != ""
    ensures Lt(release, release.(prerelease := Some(pre)))
    ensures forall other :: Proper(other) ==> !Confusable(release, other)
  {
  }

  // The greatest of a list: a later version replaces the best so far when it is greater.
  function LatestOf(versions: seq<ApiVersion>): Option<ApiVersion> {
    if versions == [] then None
    else
      var best, x := LatestOf(versions[..|versions| - 1]), versions[|versions| - 1];
      if best.None? || Gt(x, best.value) then Some(x) else best
  }

  // A version above none of a list's first is above none of the rest that are not above it either.
  lemma NotLtIsTransitive(a: ApiVersion, b: ApiVersion, c: ApiVersion)
    requires !Lt(a, b) && !Lt(b, c)
    ensures !Lt(a, c)
  {
    if a.IsPrerelease() && b.IsPrerelease() && c.IsPrerelease() {
      LessTrichotomy(a.prerelease.value, b.prerelease.value);
      LessTrichotomy(b.prerelease.value, c.prerelease.value);
      LessTrichotomy(a.prerelease.value, c.prerelease.value);
      if Less(a.prerelease.value, c.prerelease.value) && Less(b.prerelease.value, a.prerelease.value) {
        LessTransitive(b.prerelease.value, a.prerelease.value, c.prerelease.value);
      }
    }
  }

  lemma {:induction false} LatestIsNotBelow(versions: seq<ApiVersion>)
    requires versions != []
    ensures var latest := LatestOf(versions);
            latest.Some? && latest.value in versions && forall v :: v in versions ==> !Lt(latest.value, v)
  {
    var init, x := versions[..|versions| - 1], versions[|versions| - 1];
    assert versions == init + [x];
    LtIsStrict(x, x);
    if init != [] {
      LatestIsNotBelow(init);
      var best := LatestOf(init).value;
      LtIsStrict(best, x);
      forall v | v in init ensures Gt(x, best) ==> !Lt(x, v) {
        if Gt(x, best) {
          NotLtIsTransitive(x, best, v);
        }
      }
    }
  }

  // Two versions of the list that are confusable, and that nothing in the list is above.
  ghost predicate ConfusableAtTop(versions: seq<ApiVersion>) {
    exists a, b :: a in versions && b in versions && Confusable(a, b) && forall v :: v in versions ==> !Lt(a, v)
  }

  // The result bounds the whole list if and only if the list has no such pair.
  lemma LatestIsGreatestIff(versions: seq<ApiVersion>)
    requires versions != []
    ensures LatestOf(versions).Some? && LatestOf(versions).value in versions
    ensures (forall v :: v in versions ==> Le(v, LatestOf(versions).value)) <==> !ConfusableAtTop(versions)
  {
    LatestIsNotBelow(versions);
    var latest := LatestOf(versions).value;
    forall v | v in versions ensures Le(v, latest) <==> !Confusable(latest, v) {
      TotalIffNotConfusable(v, latest);
    }
    if a, b :| a in versions && b in versions && Confusable(a, b) && forall v :: v in versions ==> !Lt(a, v) {
      TotalIffNotConfusable(a, latest);
      assert Confusable(latest, a) || Confusable(latest, b);
    }
  }

  // ----- Text

  // __str__
  function Text(v: ApiVersion): string {
    "v" + IntText(v.major) + "." + IntText(v.minor)
    + (if v.patch > 0 then "." + IntText(v.patch) else "")
    + if v.IsPrerelease() then "-" + v.prerelease.value else ""
  }

  function FromNumbers(numbers: seq<string>, prerelease: Option<string>): Option<ApiVersion> {
    if |numbers| < 2 then None
    else
      var major, minor := ParseInt(numbers[0]), ParseInt(numbers[1]);
      var patch := if |numbers| > 2 then ParseInt(numbers[2]) else Some(0);
      if major.None? || minor.None? || patch.None? then None
      else Some(ApiVersion(major.value, minor.value, patch.value, prerelease))
  }

  // Two numbers are needed, the patch is 0 without a third, and further ones are not looked at.
  lemma ThreeNumbersCount(numbers: seq<string>, prerelease: Option<string>)
    ensures |numbers| < 2 ==> FromNumbers(numbers, prerelease) == None
    ensures |numbers| == 2 && FromNumbers(numbers, prerelease).Some? ==>
              FromNumbers(numbers, prerelease).value.patch == 0
    ensures |numbers| >= 3 ==> FromNumbers(numbers, prerelease) == FromNumbers(numbers[..3], prerelease)
    ensures |numbers| >= 2 && (ParseInt(numbers[0]).None? || ParseInt(numbers[1]).None?) ==>
              FromNumbers(numbers, prerelease) == None
    ensures |numbers| >= 3 && ParseInt(numbers[2]).None? ==> FromNumbers(numbers, prerelease) == None
  {
  }

  // parse; None is ValueError.
  function Parse(text: string): Option<ApiVersion> {
    var parts := Split(DropLeading(text, 'v'), '-');
    FromNumbers(Split(parts[0], '.'), if |parts| > 1 then Some(parts[1]) else None)
  }

  predicate Printable(v: ApiVersion) {
    && v.major >= 0 && v.minor >= 0 && v.patch >= 0
    && (v.prerelease.Some? ==> v.prerelease.value != "" && '-' !in v.prerelease.value)
  }

  function MainText(v: ApiVersion): string
    requires v.major >= 0 && v.minor >= 0
  {
    NatText(v.major) + ['.'] + NatText(v.minor) + if v.patch > 0 then ['.'] + NatText(v.patch) else ""
  }

  lemma MainIsPlain(v: ApiVersion)
    requires v.major >= 0 && v.minor >= 0
    ensures '-' !in MainText(v) && MainText(v) != "" && MainText(v)[0] != 'v'
  {
    assert MainText(v)[0] == NatText(v.major)[0] && IsDigit(NatText(v.major)[0]);
  }

  lemma DigitsLack(s: string, c: char)
    requires AllDigits(s) && !IsDigit(c)
    ensures c !in s
  {
  }

  lemma SplitTwo(a: string, c: char, b: string)
    requires c !in a && c !in b
    ensures Split(a + [c] + b, c) == [a, b]
  {
    SplitFirst(a, c, b);
    SplitWithout(b, c);
  }

  lemma MainSplits(v: ApiVersion)
    requires v.major >= 0 && v.minor >= 0
    ensures Split(MainText(v), '.') ==
            [NatText(v.major), NatText(v.minor)] + if v.patch > 0 then [NatText(v.patch)] else []
  {
    var a, b := NatText(v.major), NatText(v.minor);
    DigitsLack(a, '.');
    DigitsLack(b, '.');
    if v.patch > 0 {
      var c := NatText(v.patch);
      DigitsLack(c, '.');
      assert MainText(v) == a + ['.'] + (b + ['.'] + c);
      SplitFirst(a, '.', b + ['.'] + c);
      SplitTwo(b, '.', c);
    } else {
      assert MainText(v) == a + ['.'] + b;
      SplitTwo(a, '.', b);
    }
  }

  lemma TwoNumbers(a: string, b: string, prerelease: Option<string>)
    requires ParseInt(a).Some? && ParseInt(b).Some?
    ensures FromNumbers([a, b], prerelease) == Some(ApiVersion(ParseInt(a).value, ParseInt(b).value, 0, prerelease))
  {
  }

  lemma ThreeNumbers(a: string, b: string, c: string, prerelease: Option<string>)
    requires ParseInt(a).Some? && ParseInt(b).Some? && ParseInt(c).Some?
    ensures FromNumbers([a, b, c], prerelease) ==
            Some(ApiVersion(ParseInt(a).value, ParseInt(b).value, ParseInt(c).value, prerelease))
  {
  }

  lemma NumbersOfTexts(major: nat, minor: nat, patch: nat, prerelease: Option<string>)
    ensures FromNumbers([NatText(major), NatText(minor)], prerelease) == Some(ApiVersion(major, minor, 0, prerelease))
    ensures FromNumbers([NatText(major), NatText(minor), NatText(patch)], prerelease) ==
            Some(ApiVersion(major, minor, patch, prerelease))
  {
    var a, b, c := NatText(major), NatText(minor), NatText(patch);
    ParseIntInvertsText(major);
    ParseIntInvertsText(minor);
    ParseIntInvertsText(patch);
    TwoNumbers(a, b, prerelease);
    ThreeNumbers(a, b, c, prerelease);
  }

  lemma PairAndOne(a: string, b: string, c: string)
    ensures [a, b] + [c] == [a, b, c] && [a, b] + [] == [a, b]
  {
  }

  lemma NumbersComeBack(v: ApiVersion, prerelease: Option<string>)
    requires v.major >= 0 && v.minor >= 0
    ensures FromNumbers(Split(MainText(v), '.'), prerelease) ==
            Some(ApiVersion(v.major, v.minor, if v.patch > 0 then v.patch else 0, prerelease))
  {
    var patch := if v.patch > 0 then v.patch else 0;
    NumbersOfTexts(v.major, v.minor, patch, prerelease);
    MainSplits(v);
    PairAndOne(NatText(v.major), NatText(v.minor), NatText(patch));
  }

  lemma DropOne(rest: string)
    requires rest != "" && rest[0] != 'v'
    ensures DropLeading(['v'] + rest, 'v') == rest
  {
    assert (['v'] + rest)[1..] == rest;
  }

  function Suffix(v: ApiVersion): string {
    if v.IsPrerelease() then ['-'] + v.prerelease.value else ""
  }

  lemma TextIsMainAndSuffix(v: ApiVersion)
    requires v.major >= 0 && v.minor >= 0
    ensures Text(v) == ['v'] + (MainText(v) + Suffix(v))
  {
    RegroupMain(NatText(v.major), NatText(v.minor), PatchText(v), Suffix(v));
  }

  lemma RegroupMain(a: string, b: string, c: string, d: string)
    ensures "v" + a + "." + b + c + d == ['v'] + (a + ['.'] + b + c + d)
  {
  }

  lemma PartsOfText(v: ApiVersion)
    requires v.major >= 0 && v.minor >= 0
    ensures Split(DropLeading(Text(v), 'v'), '-') ==
            [MainText(v)] + if v.IsPrerelease() then Split(v.prerelease.value, '-') else []
  {
    var main := MainText(v);
    MainIsPlain(v);
    TextIsMainAndSuffix(v);
    DropOne(main + Suffix(v));
    if v.IsPrerelease() {
      assert main + Suffix(v) == main + ['-'] + v.prerelease.value;
      SplitFirst(main, '-', v.prerelease.value);
    } else {
      assert main + Suffix(v) == main;
      SplitWithout(main, '-');
    }
  }

  // What parsing the text of a version with a natural major and minor number gives back.
  lemma ParseOfText(v: ApiVersion)
    requires v.major >= 0 && v.minor >= 0
    ensures Parse(Text(v)) ==
            Some(ApiVersion(v.major, v.minor, if v.patch > 0 then v.patch else 0,
                            if v.IsPrerelease() then Some(Split(v.prerelease.value, '-')[0]) else None))
  {
    PartsOfText(v);
    NumbersComeBack(v, if v.IsPrerelease() then Some(Split(v.prerelease.value, '-')[0]) else None);
  }

  lemma DashFirst(rest: string)
    ensures Parse(['v'] + (['-'] + rest)) == None
  {
    DropOne(['-'] + rest);
    assert ['-'] + rest == "" + ['-'] + rest;
    SplitFirst("", '-', rest);
    SplitWithout("", '.');
  }

  lemma DashAfterDot(a: string, rest: string)
    requires a != "" && AllDigits(a)
    ensures Parse(['v'] + (a + ['.'] + ['-'] + rest)) == None
  {
    var main := a + ['.'];
    assert main[0] == a[0] && IsDigit(a[0]);
    DropOne(main + ['-'] + rest);
    DigitsLack(a, '-');
    DigitsLack(a, '.');
    SplitFirst(main, '-', rest);
    assert main == a + ['.'] + "";
    SplitTwo(a, '.', "");
    EmptyMinorFails(a, if |Split(rest, '-')| > 0 then Some(Split(rest, '-')[0]) else None);
  }

  lemma DashedMajorFails(a: string, b: string, c: string, d: string)
    ensures Parse("v" + ("-" + a) + "." + b + c + d) == None
  {
    RegroupMajor(a, b, c, d);
    DashFirst(a + "." + b + c + d);
  }

  lemma DashedMinorFails(a: string, b: string, c: string, d: string)
    requires a != "" && AllDigits(a)
    ensures Parse("v" + a + "." + ("-" + b) + c + d) == None
  {
    RegroupMinor(a, b, c, d);
    DashAfterDot(a, b + c + d);
  }

  lemma RegroupMajor(a: string, b: string, c: string, d: string)
    ensures "v" + ("-" + a) + "." + b + c + d == ['v'] + (['-'] + (a + "." + b + c + d))
  {
  }

  lemma RegroupMinor(a: string, b: string, c: string, d: string)
    ensures "v" + a + "." + ("-" + b) + c + d == ['v'] + (a + ['.'] + ['-'] + (b + c + d))
  {
  }

  function PatchText(v: ApiVersion): string {
    if v.patch > 0 then "." + IntText(v.patch) else ""
  }

  lemma TextOfNegativeMajor(v: ApiVersion)
    requires v.major < 0
    ensures Text(v) == "v" + ("-" + NatText(-v.major)) + "." + IntText(v.minor) + PatchText(v) + Suffix(v)
  {
  }

  lemma TextOfNegativeMinor(v: ApiVersion)
    requires v.major >= 0 && v.minor < 0
    ensures Text(v) == "v" + NatText(v.major) + "." + ("-" + NatText(-v.minor)) + PatchText(v) + Suffix(v)
  {
  }

  lemma NegativeMajorFails(v: ApiVersion)
    requires v.major < 0
    ensures Parse(Text(v)) == None
  {
    TextOfNegativeMajor(v);
    DashedMajorFails(NatText(-v.major), IntText(v.minor), PatchText(v), Suffix(v));
  }

  lemma NegativeMinorFails(v: ApiVersion)
    requires v.major >= 0 && v.minor < 0
    ensures Parse(Text(v)) == None
  {
    TextOfNegativeMinor(v);
    DashedMinorFails(NatText(v.major), NatText(-v.minor), PatchText(v), Suffix(v));
  }

  lemma EmptyMinorFails(a: string, prerelease: Option<string>)
    ensures FromNumbers([a, ""], prerelease) == None
  {
    ParseIntInvertsText(0);
  }

  // parse undoes __str__ exactly when the numbers are natural and the prerelease, if any,
  // is not empty and has no hyphen.
  lemma ParseInvertsTextIff(v: ApiVersion)
    ensures Parse(Text(v)) == Some(v) <==> Printable(v)
  {
    if v.major < 0 {
      NegativeMajorFails(v);
    } else if v.minor < 0 {
      NegativeMinorFails(v);
    } else {
      ParseOfText(v);
      FirstPartIsAll(v);
    }
  }

  lemma FirstPartIsAll(v: ApiVersion)
    ensures v.IsPrerelease() ==>
              (Split(v.prerelease.value, '-')[0] == v.prerelease.value <==> '-' !in v.prerelease.value)
  {
    if v.IsPrerelease() {
      SplitFirstPart(v.prerelease.value, '-');
    }
  }

  // So printable versions have distinct texts.
  lemma TextIsInjective(v: ApiVersion, w: ApiVersion)
    requires Printable(v) && Printable(w) && Text(v) == Text(w)
    ensures v == w
  {
    ParseInvertsTextIff(v);
    ParseInvertsTextIff(w);
  }

  // ----- Negotiation

  datatype Config = Config(defaultVersion: ApiVersion, supported: seq<ApiVersion>, negotiate: bool)

  const DEFAULT_CONFIG := Config(Release(1, 0), [Release(1, 0), Release(1, 1), Release(2, 0)], true)

  function Release(major: int, minor: int): ApiVersion { ApiVersion(major, minor, 0, None) }

  // To see whether a version is acceptable, the code builds a manager, which uses every supported
  // version as a dictionary key.  Versions define equality and no hash, so the first one raises
  // TypeError.  `Intended` is what is asked of the manager once it is there.
  datatype Test = AsWritten | Intended

  // None is TypeError.
  function Acceptable(test: Test, cfg: Config, v: ApiVersion): Option<bool> {
    if test.AsWritten? && cfg.supported != [] then None else Some(v in cfg.supported)
  }

  datatype Offer = Offer(version: ApiVersion, quality: real)

  // How a quality is read, which is not modelled; None is ValueError.
  type FloatParser = string -> Option<real>

  // What one part of the header contributes: nothing, an offer, or an uncaught exception.
  datatype PartResult = Nothing | Offered(offer: Offer) | Raises

  function ReadPart(raw: string, toFloat: FloatParser): PartResult {
    var part := Strip(raw);
    if part == "" then Nothing
    else if ';' in part then
      var halves := Split(part, ';');
      if |halves| != 2 then Raises  // unpacking into two fails
      else
        var assignment := Split(halves[1], '=');
        if |assignment| < 2 || toFloat(assignment[1]).None? then Raises
        else AsOffer(halves[0], toFloat(assignment[1]).value)
    else AsOffer(part, 1.0)
  }

  function AsOffer(text: string, quality: real): PartResult {
    var v := Parse(Strip(text));
    if v.Some? then Offered(Offer(v.value, quality)) else Nothing
  }

  lemma TwoSemicolonsRaise(text: string, quality: string, toFloat: FloatParser)
    requires ';' !in text && ';' !in quality && Strip(text) == text && text != ""
    ensures ReadPart(text + ";" + quality + ";" + text, toFloat) == Raises
  {
    var part := text + ";" + quality + ";" + text;
    StripKeepsEnds(text, part);
    assert part == text + [';'] + (quality + [';'] + text) && part[|text|] == ';';
    SplitFirst(text, ';', quality + [';'] + text);
    SplitTwo(quality, ';', text);
  }

  lemma StripKeepsEnds(text: string, part: string)
    requires Strip(text) == text && text != ""
    requires |part| >= |text| && part[0] == text[0] && part[|part| - 1] == text[|text| - 1]
    ensures Strip(part) == part
  {
    StrippedEnds(text);
  }

  // An offer without a quality counts as 1, one with a quality as what that reads as; a text that is no
  // version offers nothing; and two semicolons, or a quality that cannot be read, raise.
  lemma OffersOfPart(text: string, quality: string, toFloat: FloatParser)
    requires ';' !in text && Strip(text) == text && text != ""
    requires ';' !in quality && '=' !in quality && Strip(text + ";q=" + quality) == text + ";q=" + quality
    ensures ReadPart(text, toFloat) ==
            if Parse(text).Some? then Offered(Offer(Parse(text).value, 1.0)) else Nothing
    ensures ReadPart(text + ";q=" + quality, toFloat) ==
            if toFloat(quality).None? then Raises
            else if Parse(text).Some? then Offered(Offer(Parse(text).value, toFloat(quality).value)) else Nothing
    ensures ReadPart(text + ";" + quality + ";" + text, toFloat) == Raises
  {
    TwoSemicolonsRaise(text, quality, toFloat);
    var weighted := text + ";q=" + quality;
    assert weighted == text + [';'] + ("q=" + quality) && weighted[|text|] == ';';
    SplitTwo(text, ';', "q=" + quality);
    assert "q=" + quality == "q" + ['='] + quality;
    SplitTwo("q", '=', quality);
  }

  // The offers of a header in order; None when reading one raises.
  function Offers(parts: seq<string>, toFloat: FloatParser): Option<seq<Offer>> {
    if parts == [] then Some([])
    else
      var before, last := Offers(parts[..|parts| - 1], toFloat), ReadPart(parts[|parts| - 1], toFloat);
      if before.None? || last.Raises? then None
      else if last.Offered? then Some(before.value + [last.offer])
      else before
  }

  // What one more part does to the offers so far.
  lemma OneMorePart(parts: seq<string>, raw: string, toFloat: FloatParser, offers: seq<Offer>, offer: Offer)
    requires Offers(parts, toFloat) == Some(offers) && ReadPart(raw, toFloat) == Offered(offer)
    ensures Offers(parts + [raw], toFloat) == Some(offers + [offer])
  {
    assert (parts + [raw])[..|parts|] == parts;
  }

  ghost predicate Gives(part: string, toFloat: FloatParser, offer: Offer) {
    ReadPart(part, toFloat) == Offered(offer)
  }

  // The first n parts give the first n offers.
  ghost predicate GiveUpTo(parts: seq<string>, toFloat: FloatParser, offers: seq<Offer>, n: nat) {
    n <= |parts| == |offers| && Offers(parts[..n], toFloat) == Some(offers[..n])
  }

  lemma NextGives(parts: seq<string>, toFloat: FloatParser, offers: seq<Offer>, n: nat)
    requires n < |parts| && GiveUpTo(parts, toFloat, offers, n) && Gives(parts[n], toFloat, offers[n])
    ensures GiveUpTo(parts, toFloat, offers, n + 1)
  {
    TakeOneMore(parts, n);
    TakeOneMore(offers, n);
    OneMorePart(parts[..n], parts[n], toFloat, offers[..n], offers[n]);
  }

  lemma TakeOneMore<T>(s: seq<T>, n: nat)
    requires n < |s|
    ensures s[..n + 1] == s[..n] + [s[n]]
  {
  }

  lemma {:induction false} AllGive(parts: seq<string>, toFloat: FloatParser, offers: seq<Offer>, n: nat)
    requires n <= |parts| == |offers| && forall i :: 0 <= i < |parts| ==> Gives(parts[i], toFloat, offers[i])
    ensures GiveUpTo(parts, toFloat, offers, n)
  {
    if n > 0 {
      var m := n - 1;
      AllGive(parts, toFloat, offers, m);
      assert Gives(parts[m], toFloat, offers[m]);
      NextGives(parts, toFloat, offers, m);
    } else {
      NoneGive(parts, toFloat, offers);
    }
  }

  lemma NoneGive(parts: seq<string>, toFloat: FloatParser, offers: seq<Offer>)
    requires |parts| == |offers|
    ensures GiveUpTo(parts, toFloat, offers, 0)
  {
    assert parts[..0] == [] && offers[..0] == [];
  }

  // Parts that all offer something give their offers in the order of the header.
  lemma OffersInOrder(parts: seq<string>, toFloat: FloatParser, offers: seq<Offer>)
    requires |parts| == |offers| && forall i :: 0 <= i < |parts| ==> Gives(parts[i], toFloat, offers[i])
    ensures Offers(parts, toFloat) == Some(offers)
  {
    AllGive(parts, toFloat, offers, |parts|);
    assert parts[..|parts|] == parts && offers[..|offers|] == offers;
  }

  predicate HigherQuality(a: Offer, b: Offer) { a.quality > b.quality }

  lemma HigherQualityIsStrictWeak()
    ensures StableSort.StrictWeakOrder(HigherQuality)
  {
  }

  function Supports(supported: seq<ApiVersion>): Offer -> bool {
    (o: Offer) => o.version in supported
  }

  // The answer to a list of offers under the intended test, said without sorting: the earliest
  // supported offer of greatest quality, else the default.
  ghost predicate IsBestAnswer(offers: seq<Offer>, cfg: Config, default: ApiVersion, answer: ApiVersion) {
    if exists i :: 0 <= i < |offers| && offers[i].version in cfg.supported
    then exists k :: IsEarliestOfGreatestQuality(offers, cfg.supported, k) && answer == offers[k].version
    else answer == default
  }

  ghost predicate IsEarliestOfGreatestQuality(offers: seq<Offer>, supported: seq<ApiVersion>, k: int) {
    && 0 <= k < |offers| && offers[k].version in supported
    && (forall i :: 0 <= i < |offers| && offers[i].version in supported ==> offers[i].quality <= offers[k].quality)
    && (forall i :: 0 <= i < k && offers[i].version in supported ==> offers[i].quality < offers[k].quality)
  }

  // The first acceptable version, else the default; None when the test raises.
  function FirstAcceptable(test: Test, cfg: Config, offers: seq<Offer>, default: ApiVersion): Option<ApiVersion> {
    if offers == [] then Some(default)
    else
      var ok := Acceptable(test, cfg, offers[0].version);
      if ok.None? then None
      else if ok.value then Some(offers[0].version)
      else FirstAcceptable(test, cfg, offers[1..], default)
  }

  // What a header leads to; None when an exception escapes.
  function HeaderAnswer(test: Test, cfg: Config, header: string, default: ApiVersion, toFloat: FloatParser)
    : Option<ApiVersion>
  {
    var offers := Offers(Split(header, ','), toFloat);
    if offers.None? then None
    else FirstAcceptable(test, cfg, StableSort.Sort(offers.value, HigherQuality), default)
  }

  function Fallback(default: Option<ApiVersion>, cfg: Config): ApiVersion {
    if default.Some? then default.value else cfg.defaultVersion
  }

  function Negotiated(test: Test, cfg: Config, header: string, param: string, default: Option<ApiVersion>,
                      toFloat: FloatParser): Option<ApiVersion>
  {
    var asked := if param == "" then None else Parse(param);
    var ok := if asked.None? then Some(false) else Acceptable(test, cfg, asked.value);
    if ok.None? then None
    else if ok.value then asked
    else if header != "" && cfg.negotiate then HeaderAnswer(test, cfg, header, Fallback(default, cfg), toFloat)
    else Some(Fallback(default, cfg))
  }

  // ----- As intended

  function FirstSupported(offers: seq<Offer>, cfg: Config, default: ApiVersion): ApiVersion {
    var first := StableSort.FirstPassing(StableSort.Sort(offers, HigherQuality), Supports(cfg.supported));
    if first.Some? then first.value.version else default
  }

  lemma SortedSearchIsBest(offers: seq<Offer>, cfg: Config, default: ApiVersion)
    ensures IsBestAnswer(offers, cfg, default, FirstSupported(offers, cfg, default))
  {
    var test := Supports(cfg.supported);
    HigherQualityIsStrictWeak();
    StableSort.SortThenFirst(offers, HigherQuality, test);
    StableSort.ChoiceIsEarliestBest(offers, HigherQuality, test);
    var choice := StableSort.Choice(offers, HigherQuality, test);
    if choice.Some? {
      var k :| StableSort.IsEarliestBest(offers, k, HigherQuality, test) && offers[k] == choice.value;
      assert IsEarliestOfGreatestQuality(offers, cfg.supported, k);
    } else {
      assert forall i :: 0 <= i < |offers| ==> !test(offers[i]);
    }
  }

  // The answer is unique: two best answers are equal.
  lemma BestAnswerIsUnique(offers: seq<Offer>, cfg: Config, default: ApiVersion, a: ApiVersion, b: ApiVersion)
    requires IsBestAnswer(offers, cfg, default, a) && IsBestAnswer(offers, cfg, default, b)
    ensures a == b
  {
    if i :| 0 <= i < |offers| && offers[i].version in cfg.supported {
      var j :| IsEarliestOfGreatestQuality(offers, cfg.supported, j) && a == offers[j].version;
      var k :| IsEarliestOfGreatestQuality(offers, cfg.supported, k) && b == offers[k].version;
      assert j == k;
    }
  }

  lemma {:induction false} IntendedSearch(offers: seq<Offer>, cfg: Config, default: ApiVersion)
    ensures FirstAcceptable(Intended, cfg, offers, default) ==
            var first := StableSort.FirstPassing(offers, Supports(cfg.supported));
            Some(if first.Some? then first.value.version else default)
  {
    if offers != [] {
      IntendedSearch(offers[1..], cfg, default);
    }
  }

  // Under the intended test a header raises exactly on a malformed quality, and else leads to the best
  // answer; a supported version parameter wins over it, and without either the default is the answer.
  lemma IntendedNegotiation(cfg: Config, header: string, param: string, default: Option<ApiVersion>,
                            toFloat: FloatParser)
    ensures var answer := Negotiated(Intended, cfg, header, param, default, toFloat);
            var offers := Offers(Split(header, ','), toFloat);
            if param != "" && Parse(param).Some? && Parse(param).value in cfg.supported then answer == Parse(param)
            else
              var fallback := if default.Some? then default.value else cfg.defaultVersion;
              if header == "" || !cfg.negotiate then answer == Some(fallback)
              else if offers.None? then answer == None
              else answer.Some? && IsBestAnswer(offers.value, cfg, fallback, answer.value)
  {
    var offers := Offers(Split(header, ','), toFloat);
    if offers.Some? {
      IntendedSearch(StableSort.Sort(offers.value, HigherQuality), cfg, Fallback(default, cfg));
      SortedSearchIsBest(offers.value, cfg, Fallback(default, cfg));
    }
  }

  // ----- As written

  lemma {:induction false} AsWrittenSearch(cfg: Config, offers: seq<Offer>, default: ApiVersion)
    ensures FirstAcceptable(AsWritten, cfg, offers, default) ==
            if cfg.supported != [] && offers != [] then None else Some(default)
  {
    if offers != [] && cfg.supported == [] {
      AsWrittenSearch(cfg, offers[1..], default);
    }
  }

  lemma SortKeepsCount(offers: seq<Offer>)
    ensures StableSort.Sort(offers, HigherQuality) == [] <==> offers == []
  {
    HigherQualityIsStrictWeak();
    StableSort.SortSorts(offers, HigherQuality);
    assert |multiset(StableSort.Sort(offers, HigherQuality))| == |multiset(offers)|;
  }

  predicate SomeQualityMalformed(header: string, toFloat: FloatParser) {
    Offers(Split(header, ','), toFloat).None?
  }

  predicate SomeOfferParses(header: string, toFloat: FloatParser) {
    var offers := Offers(Split(header, ','), toFloat);
    offers.Some? && offers.value != []
  }

  // The code raises if and only if some version is supported and the parameter parses, or the header
  // is looked at and has a malformed quality or, some version being supported, an offer that parses.
  // Otherwise the answer is the default; no supported version is ever negotiated.
  lemma NegotiationRaisesIff(cfg: Config, header: string, param: string, default: Option<ApiVersion>,
                             toFloat: FloatParser)
    ensures var answer := Negotiated(AsWritten, cfg, header, param, default, toFloat);
            && (answer == None <==>
                || (param != "" && Parse(param).Some? && cfg.supported != [])
                || (header != "" && cfg.negotiate
                    && (SomeQualityMalformed(header, toFloat)
                        || (cfg.supported != [] && SomeOfferParses(header, toFloat)))))
            && (answer.Some? ==> answer.value == if default.Some? then default.value else cfg.defaultVersion)
  {
    var offers := Offers(Split(header, ','), toFloat);
    if offers.Some? {
      SortKeepsCount(offers.value);
      AsWrittenSearch(cfg, StableSort.Sort(offers.value, HigherQuality), Fallback(default, cfg));
    }
  }

  lemma DefaultText()
    ensures Text(DEFAULT_CONFIG.defaultVersion) == "v1.0"
    ensures var s := DEFAULT_CONFIG.supported;
            |s| == 3 && Text(s[0]) == "v1.0" && Text(s[1]) == "v1.1" && Text(s[2]) == "v2.0"
  {
    assert NatText(0) == "0" && NatText(1) == "1" && NatText(2) == "2";
  }

  // In the default configuration even asking for the default version by its own text raises.
  lemma DefaultConfigRaises(header: string, default: Option<ApiVersion>, toFloat: FloatParser)
    ensures Negotiated(AsWritten, DEFAULT_CONFIG, header, "v1.0", default, toFloat) == None
  {
    var v := DEFAULT_CONFIG.defaultVersion;
    DefaultText();
    ParseInvertsTextIff(v);
    assert Printable(v) && Acceptable(AsWritten, DEFAULT_CONFIG, v) == None;
    ParsedParameterRaises(DEFAULT_CONFIG, header, "v1.0", v, default, toFloat);
  }

  lemma ParsedParameterRaises(cfg: Config, header: string, param: string, v: ApiVersion, default: Option<ApiVersion>,
                              toFloat: FloatParser)
    requires param != "" && Parse(param) == Some(v) && Acceptable(AsWritten, cfg, v) == None
    ensures Negotiated(AsWritten, cfg, header, param, default, toFloat) == None
  {
  }

  // ----- The methods, for either test

  // The first loop: the offers of the parts, or the exception that reading one raises.
  method ReadOffers(parts: seq<string>, toFloat: FloatParser) returns (r: Option<seq<Offer>>)
    ensures r == Offers(parts, toFloat)
  {
    var offers := [];
    for i := 0 to |parts|
      invariant Offers(parts[..i], toFloat) == Some(offers)
    {
      assert parts[..i + 1][..i] == parts[..i];
      var part := ReadPart(parts[i], toFloat);
      if part.Raises? {
        RaisingStays(parts, i + 1, toFloat);
        return None;
      }
      if part.Offered? {
        offers := offers + [part.offer];
      }
    }
    assert parts[..|parts|] == parts;
    return Some(offers);
  }

  // The second loop.
  method TakeFirst(test: Test, cfg: Config, offers: seq<Offer>, default: ApiVersion)
    returns (answer: Option<ApiVersion>)
    ensures answer == FirstAcceptable(test, cfg, offers, default)
  {
    for i := 0 to |offers|
      invariant FirstAcceptable(test, cfg, offers, default) == FirstAcceptable(test, cfg, offers[i..], default)
    {
      assert offers[i..][1..] == offers[i + 1..];
      var ok := Acceptable(test, cfg, offers[i].version);
      if ok.None? {
        return None;
      }
      if ok.value {
        return Some(offers[i].version);
      }
    }
    return Some(default);
  }

  method ParseAcceptHeader(test: Test, header: string, default: ApiVersion, cfg: Config, toFloat: FloatParser)
    returns (answer: Option<ApiVersion>)
    ensures answer == HeaderAnswer(test, cfg, header, default, toFloat)
  {
    var offers := ReadOffers(Split(header, ','), toFloat);
    if offers.None? {
      return None;
    }
    answer := TakeFirst(test, cfg, StableSort.Sort(offers.value, HigherQuality), default);
  }

  lemma {:induction false} RaisingStays(parts: seq<string>, n: nat, toFloat: FloatParser)
    requires n <= |parts| && Offers(parts[..n], toFloat).None?
    ensures Offers(parts, toFloat).None?
    decreases |parts| - n
  {
    if n < |parts| {
      assert parts[..n + 1][..n] == parts[..n];
      RaisingStays(parts, n + 1, toFloat);
    } else {
      assert parts[..n] == parts;
    }
  }

  method NegotiateVersion(test: Test, header: string, param: string, default: Option<ApiVersion>, cfg: Config,
                          toFloat: FloatParser)
    returns (answer: Option<ApiVersion>)
    ensures answer == Negotiated(test, cfg, header, param, default, toFloat)
  {
    var fallback := if default.Some? then default.value else cfg.defaultVersion;
    if param != "" {
      var v := Parse(param);
      if v.Some? {
        var ok := Acceptable(test, cfg, v.value);
        if ok.None? {
          return None;
        }
        if ok.value {
          return v;
        }
      }
    }
    if header != "" && cfg.negotiate {
      answer := ParseAcceptHeader(test, header, fallback, cfg, toFloat);
    } else {
      answer := Some(fallback);
    }
  }
}
