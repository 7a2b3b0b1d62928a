/**
 Version texts of the form v<major>[.<minor>[.<patch>[-<prerelease>][+<build>]]] and their precedence,
 following sections 2, 9, 10 and 11 of Semantic Versioning 2.0.0. An invalid text is below every valid
 one, and two invalid texts are equivalent.
 */
module SemVer {
  import opened Wrappers
  import opened Text

  // `written` is how many of the three numeric parts the text spells out; absent ones read "0".
  datatype Version = Version(
    major: string, minor: string, patch: string,
    prerelease: seq<string>, build: seq<string>, written: nat)

  // ----- Parsing -----

  predicate IsNumeral(s: string)
  {
    s != "" && AllDigits(s) && (s[0] == '0' ==> |s| == 1)
  }

  /** A numeral without leading zeros at the start of s, and what follows it. */
  function ParseInt(s: string): (r: Option<(string, string)>)
    ensures r.Some? ==> IsNumeral(r.value.0) && s == r.value.0 + r.value.1
    ensures r.Some? ==> r.value.1 == "" || !IsDigit(r.value.1[0])
  {
    var n := DigitRun(s);
    if n == 0 || (s[0] == '0' && n != 1) then None else Some((s[..n], s[n..]))
  }

  predicate IsIdentChar(c: char)
  {
    IsDigit(c) || 'a' <= c <= 'z' || 'A' <= c <= 'Z' || c == '-'
  }

  predicate IsIdent(s: string)
  {
    s != "" && forall i :: 0 <= i < |s| ==> IsIdentChar(s[i])
  }

  predicate IsPrereleaseIdent(s: string)
  {
    IsIdent(s) && (AllDigits(s) ==> IsNumeral(s))
  }

  predicate ArePrereleaseIdents(idents: seq<string>)
  {
    forall i :: 0 <= i < |idents| ==> IsPrereleaseIdent(idents[i])
  }

  function ParsePrerelease(s: string): (r: Option<(seq<string>, string)>)
    ensures r.Some? ==> ArePrereleaseIdents(r.value.0)
  {
    if s == "" || s[0] != '-' then Some(([], s))
    else
      var end := Find(s, '+');
      var idents := Split(s[1..end], '.');
      if ArePrereleaseIdents(idents) then Some((idents, s[end..])) else None
  }

  function ParseBuild(s: string): Option<seq<string>>
  {
    if s == "" then Some([])
    else if s[0] != '+' then None
    else
      var idents := Split(s[1..], '.');
      if forall i :: 0 <= i < |idents| ==> IsIdent(idents[i]) then Some(idents) else None
  }

  /** How a version's text reads after its major numeral. */
  predicate Layout(p: Version, s: string)
  {
    && IsNumeral(p.minor) && IsNumeral(p.patch) && 1 <= p.written <= 3
    && (p.written == 1 ==> s == "" && p.minor == "0")
    && (p.written == 2 ==> s == "." + p.minor)
    && (p.written == 3 ==> "." + p.minor + "." + p.patch <= s)
  }

  function ParseAfterPatch(major: string, minor: string, patch: string, s: string): (r: Option<Version>)
    ensures r.Some? ==> r.value.major == major && r.value.minor == minor && r.value.patch == patch
    ensures r.Some? ==> r.value.written == 3 && ArePrereleaseIdents(r.value.prerelease)
  {
    match ParsePrerelease(s)
    case None => None
    case Some((prerelease, rest)) =>
      match ParseBuild(rest)
      case None => None
      case Some(build) => Some(Version(major, minor, patch, prerelease, build, 3))
  }

  function ParseAfterMinor(major: string, minor: string, s: string): (r: Option<Version>)
    ensures r.Some? ==> r.value.major == major && r.value.minor == minor && IsNumeral(r.value.patch)
    ensures r.Some? ==> ArePrereleaseIdents(r.value.prerelease)
    ensures r.Some? ==> if s == "" then r.value.written == 2 else r.value.written == 3 && "." + r.value.patch <= s
  {
    if s == "" then Some(Version(major, minor, "0", [], [], 2))
    else if s[0] != '.' then None
    else
      match ParseInt(s[1..])
      case None => None
      case Some((patch, suffix)) => ParseAfterPatch(major, minor, patch, suffix)
  }

  lemma LayoutAfterMajor(s: string, minor: string, rest: string, p: Version)
    requires s != "" && s[0] == '.' && s[1..] == minor + rest
    requires IsNumeral(minor) && p.minor == minor && IsNumeral(p.patch)
    requires if rest == "" then p.written == 2 else p.written == 3 && "." + p.patch <= rest
    ensures Layout(p, s)
  {
    assert s == "." + minor + rest;
    if rest != "" {
      var after := rest[1 + |p.patch|..];
      assert rest == "." + p.patch + after;
      assert s == ("." + minor + "." + p.patch) + after;
    } else {
      assert s == "." + minor;
    }
  }

  function ParseAfterMajor(major: string, s: string): (r: Option<Version>)
    ensures r.Some? ==> r.value.major == major && Layout(r.value, s) && ArePrereleaseIdents(r.value.prerelease)
  {
    if s == "" then Some(Version(major, "0", "0", [], [], 1))
    else if s[0] != '.' then None
    else
      match ParseInt(s[1..])
      case None => None
      case Some((minor, rest)) =>
        var r := ParseAfterMinor(major, minor, rest);
        assert r.Some? ==> Layout(r.value, s) by {
          if r.Some? {
            LayoutAfterMajor(s, minor, rest, r.value);
          }
        }
        r
  }

  predicate HasNumerals(p: Version)
  {
    IsNumeral(p.major) && IsNumeral(p.minor) && IsNumeral(p.patch)
  }

  function Parse(v: string): (r: Option<Version>)
    ensures r.Some? ==> HasNumerals(r.value) && ArePrereleaseIdents(r.value.prerelease)
  {
    if v == "" || v[0] != 'v' then None
    else
      match ParseInt(v[1..])
      case None => None
      case Some((major, rest)) => ParseAfterMajor(major, rest)
  }

  predicate IsValid(v: string)
  {
    Parse(v).Some?
  }

  function MajorMinor(v: string): string
  {
    match Parse(v)
    case None => ""
    case Some(p) => "v" + p.major + "." + p.minor
  }

  /** How the text of a valid version is laid out around its major and minor numerals. */
  lemma ParseShape(s: string)
    requires IsValid("v" + s)
    ensures var p := Parse("v" + s).value;
            IsNumeral(p.major) && p.major <= s && Layout(p, s[|p.major|..])
  {
    assert ("v" + s)[1..] == s;
  }

  // ----- Precedence (section 11) -----

  function Then(first: int, second: int): int
  {
    if first != 0 then first else second
  }

  function Sign(x: int, y: int): int
  {
    if x < y then -1 else if x > y then 1 else 0
  }

  function LexCompare(x: string, y: string): int
  {
    if x == "" && y == "" then 0
    else if x == "" then -1
    else if y == "" then 1
    else Then(Sign(x[0] as int, y[0] as int), LexCompare(x[1..], y[1..]))
  }

  /** Numerals without leading zeros: the longer one is larger, equal lengths compare digit by digit. */
  function CompareNumeral(x: string, y: string): int
  {
    Then(Sign(|x|, |y|), LexCompare(x, y))
  }

  function CompareIdent(x: string, y: string): int
  {
    if AllDigits(x) && AllDigits(y) then CompareNumeral(x, y)
    else if AllDigits(x) then -1
    else if AllDigits(y) then 1
    else LexCompare(x, y)
  }

  function CompareIdents(xs: seq<string>, ys: seq<string>): int
  {
    if xs == [] && ys == [] then 0
    else if xs == [] then -1
    else if ys == [] then 1
    else Then(CompareIdent(xs[0], ys[0]), CompareIdents(xs[1..], ys[1..]))
  }

  /** A version without a pre-release is above every pre-release of it. */
  function ComparePrerelease(xs: seq<string>, ys: seq<string>): int
  {
    if xs == [] && ys == [] then 0
    else if xs == [] then 1
    else if ys == [] then -1
    else CompareIdents(xs, ys)
  }

  function CompareVersions(p: Version, q: Version): int
  {
    Then(CompareNumeral(p.major, q.major),
         Then(CompareNumeral(p.minor, q.minor),
              Then(CompareNumeral(p.patch, q.patch),
                   ComparePrerelease(p.prerelease, q.prerelease))))
  }

  function Compare(v: string, w: string): int
  {
    match (Parse(v), Parse(w))
    case (None, None) => 0
    case (None, Some(_)) => -1
    case (Some(_), None) => 1
    case (Some(p), Some(q)) => CompareVersions(p, q)
  }

  // ----- The precedence is a total preorder -----

  /** What a, b and c, the comparisons x:y, y:z and x:z, satisfy when the order is transitive. */
  predicate Lawful(a: int, b: int, c: int)
  {
    a <= 0 && b <= 0 ==> c <= 0 && (c == 0 <==> a == 0 && b == 0)
  }

  lemma {:induction false} LexLaws(x: string, y: string, z: string)
    ensures LexCompare(x, x) == 0
    ensures LexCompare(x, y) == -LexCompare(y, x)
    ensures Lawful(LexCompare(x, y), LexCompare(y, z), LexCompare(x, z))
  {
    var tail := (s: string) => if s == "" then "" else s[1..];
    if x != "" || y != "" || z != "" {
      LexLaws(tail(x), tail(y), tail(z));
    }
  }

  lemma NumeralLaws(x: string, y: string, z: string)
    ensures CompareNumeral(x, x) == 0
    ensures CompareNumeral(x, y) == -CompareNumeral(y, x)
    ensures Lawful(CompareNumeral(x, y), CompareNumeral(y, z), CompareNumeral(x, z))
  {
    LexLaws(x, y, z);
  }

  lemma IdentLaws(x: string, y: string, z: string)
    ensures CompareIdent(x, x) == 0
    ensures CompareIdent(x, y) == -CompareIdent(y, x)
    ensures Lawful(CompareIdent(x, y), CompareIdent(y, z), CompareIdent(x, z))
  {
    LexLaws(x, y, z);
    NumeralLaws(x, y, z);
  }

  lemma {:induction false} IdentsLaws(xs: seq<string>, ys: seq<string>, zs: seq<string>)
    ensures CompareIdents(xs, xs) == 0
    ensures CompareIdents(xs, ys) == -CompareIdents(ys, xs)
    ensures Lawful(CompareIdents(xs, ys), CompareIdents(ys, zs), CompareIdents(xs, zs))
    decreases |xs| + |ys| + |zs|
  {
    if xs != [] || ys != [] || zs != [] {
      var head := (s: seq<string>) => if s == [] then "" else s[0];
      var tail := (s: seq<string>) => if s == [] then [] else s[1..];
      IdentLaws(head(xs), head(ys), head(zs));
      IdentsLaws(tail(xs), tail(ys), tail(zs));
    }
  }

  lemma VersionLaws(p: Version, q: Version, r: Version)
    ensures CompareVersions(p, p) == 0
    ensures CompareVersions(p, q) == -CompareVersions(q, p)
    ensures Lawful(CompareVersions(p, q), CompareVersions(q, r), CompareVersions(p, r))
  {
    NumeralLaws(p.major, q.major, r.major);
    NumeralLaws(p.minor, q.minor, r.minor);
    NumeralLaws(p.patch, q.patch, r.patch);
    IdentsLaws(p.prerelease, q.prerelease, r.prerelease);
  }

  /** Precedence is reflexive, total and transitive over all texts, valid or not. */
  lemma CompareIsTotalPreorder(u: string, v: string, w: string)
    ensures Compare(u, u) == 0
    ensures Compare(u, v) == -Compare(v, u)
    ensures Compare(u, v) <= 0 && Compare(v, w) <= 0 ==> Compare(u, w) <= 0
    ensures Compare(u, v) <= 0 && Compare(v, w) <= 0 && Compare(u, w) == 0 ==> Compare(u, v) == 0 && Compare(v, w) == 0
  {
    var low := Version("", "", "", [], [], 0);
    var get := (o: Option<Version>) => if o.Some? then o.value else low;
    VersionLaws(get(Parse(u)), get(Parse(v)), get(Parse(w)));
  }

  // ----- Comparing numerals as text is comparing numbers (section 11.4.1) -----

  function Pow10(n: nat): (p: nat)
    ensures p >= 1
  {
    if n == 0 then 1 else 10 * Pow10(n - 1)
  }

  lemma {:induction false} Pow10Monotone(m: nat, n: nat)
    requires m <= n
    ensures Pow10(m) <= Pow10(n)
    decreases n - m
  {
    if m < n {
      Pow10Monotone(m, n - 1);
    }
  }

  lemma {:induction false} ValueBelow(s: string)
    requires AllDigits(s)
    ensures Value(s) < Pow10(|s|)
  {
    if s != "" {
      ValueBelow(s[..|s| - 1]);
    }
  }

  lemma {:induction false} ValueAtLeast(s: string)
    requires s != "" && AllDigits(s) && s[0] != '0'
    ensures Value(s) >= Pow10(|s| - 1)
  {
    if |s| == 1 {
      assert s[..0] == "";
    } else {
      ValueAtLeast(s[..|s| - 1]);
    }
  }

  lemma {:induction false} LexCompareLast(x: string, y: string)
    requires |x| == |y| > 0
    ensures LexCompare(x, y) ==
            Then(LexCompare(x[..|x| - 1], y[..|y| - 1]), Sign(x[|x| - 1] as int, y[|y| - 1] as int))
  {
    if |x| > 1 {
      LexCompareLast(x[1..], y[1..]);
      var a, b := x[..|x| - 1], y[..|y| - 1];
      assert a[1..] == x[1..][..|x| - 2] && b[1..] == y[1..][..|y| - 2];
    }
  }

  lemma {:induction false} LexIsNumericOrder(x: string, y: string)
    requires |x| == |y| && AllDigits(x) && AllDigits(y)
    ensures LexCompare(x, y) == Sign(Value(x), Value(y))
  {
    if x != "" {
      LexCompareLast(x, y);
      LexIsNumericOrder(x[..|x| - 1], y[..|y| - 1]);
    }
  }

  lemma ShorterIsSmaller(x: string, y: string)
    requires IsNumeral(x) && IsNumeral(y) && |x| < |y|
    ensures Value(x) < Value(y)
  {
    ValueBelow(x);
    ValueAtLeast(y);
    Pow10Monotone(|x|, |y| - 1);
  }

  lemma NumeralOrderIsNumeric(x: string, y: string)
    requires IsNumeral(x) && IsNumeral(y)
    ensures CompareNumeral(x, y) == Sign(Value(x), Value(y))
  {
    if |x| == |y| {
      LexIsNumericOrder(x, y);
    } else if |x| < |y| {
      ShorterIsSmaller(x, y);
    } else {
      ShorterIsSmaller(y, x);
    }
  }

  /** The order of the three numbers, most significant first. */
  function NumberOrder(p: Version, q: Version): int
    requires HasNumerals(p) && HasNumerals(q)
  {
    Then(Sign(Value(p.major), Value(q.major)),
         Then(Sign(Value(p.minor), Value(q.minor)),
              Sign(Value(p.patch), Value(q.patch))))
  }

  lemma CompareByNumbers(p: Version, q: Version)
    requires HasNumerals(p) && HasNumerals(q)
    ensures CompareVersions(p, q) == Then(NumberOrder(p, q), ComparePrerelease(p.prerelease, q.prerelease))
  {
    NumeralOrderIsNumeric(p.major, q.major);
    NumeralOrderIsNumeric(p.minor, q.minor);
    NumeralOrderIsNumeric(p.patch, q.patch);
  }

  // ----- Pre-release identifiers (sections 11.4.1 to 11.4.4) -----

  lemma {:induction false} LexEqualIff(x: string, y: string)
    ensures LexCompare(x, y) == 0 <==> x == y
  {
    if x != "" && y != "" {
      LexEqualIff(x[1..], y[1..]);
      assert x == [x[0]] + x[1..] && y == [y[0]] + y[1..];
    }
  }

  /** x comes before y in the order of their character codes, a proper prefix before the longer text. */
  ghost predicate LexBelow(x: string, y: string)
  {
    exists k :: 0 <= k <= |x| && k < |y| && x[..k] == y[..k] && (k == |x| || x[k] < y[k])
  }

  lemma FromLexBelow(x: string, y: string)
    requires x != "" && y != "" && x[0] == y[0] && LexBelow(x, y)
    ensures LexBelow(x[1..], y[1..])
  {
    var k :| 0 <= k <= |x| && k < |y| && x[..k] == y[..k] && (k == |x| || x[k] < y[k]);
    assert k > 0 && x[1..][..k - 1] == x[..k][1..] && y[1..][..k - 1] == y[..k][1..];
  }

  lemma ToLexBelow(x: string, y: string)
    requires x != "" && y != "" && x[0] == y[0] && LexBelow(x[1..], y[1..])
    ensures LexBelow(x, y)
  {
    var k :| 0 <= k <= |x[1..]| && k < |y[1..]| && x[1..][..k] == y[1..][..k] && (k == |x[1..]| || x[1..][k] < y[1..][k]);
    assert x[..k + 1] == [x[0]] + x[1..][..k] && y[..k + 1] == [y[0]] + y[1..][..k];
  }

  lemma LexBelowTail(x: string, y: string)
    requires x != "" && y != "" && x[0] == y[0]
    ensures LexBelow(x, y) <==> LexBelow(x[1..], y[1..])
  {
    if LexBelow(x, y) {
      FromLexBelow(x, y);
    }
    if LexBelow(x[1..], y[1..]) {
      ToLexBelow(x, y);
    }
  }

  lemma {:induction false} LexExactly(x: string, y: string)
    ensures LexCompare(x, y) < 0 <==> LexBelow(x, y)
  {
    if x == "" {
      if y != "" {
        assert x[..0] == y[..0];
      }
    } else if y != "" {
      LexExactly(x[1..], y[1..]);
      if x[0] < y[0] {
        assert x[..0] == y[..0];
      } else if x[0] == y[0] {
        LexBelowTail(x, y);
      }
    }
  }

  /** Numbers compare as numbers and are below all other identifiers, which compare by character codes. */
  ghost predicate IdentBelow(x: string, y: string)
  {
    if AllDigits(x) && AllDigits(y) then Value(x) < Value(y)
    else AllDigits(x) || (!AllDigits(y) && LexBelow(x, y))
  }

  lemma IdentExactly(x: string, y: string)
    requires IsPrereleaseIdent(x) && IsPrereleaseIdent(y)
    ensures CompareIdent(x, y) < 0 <==> IdentBelow(x, y)
    ensures CompareIdent(x, y) == 0 <==> x == y
  {
    LexEqualIff(x, y);
    LexExactly(x, y);
    if AllDigits(x) && AllDigits(y) {
      NumeralOrderIsNumeric(x, y);
    }
  }

  /** The first identifier that differs decides, and fewer identifiers are below more. */
  ghost predicate PrereleaseBelow(xs: seq<string>, ys: seq<string>)
  {
    exists k :: 0 <= k <= |xs| && k < |ys| && xs[..k] == ys[..k] && (k == |xs| || IdentBelow(xs[k], ys[k]))
  }

  lemma FromPrereleaseBelow(xs: seq<string>, ys: seq<string>)
    requires xs != [] && PrereleaseBelow(xs, ys)
    ensures IdentBelow(xs[0], ys[0]) || (xs[0] == ys[0] && PrereleaseBelow(xs[1..], ys[1..]))
  {
    var k :| 0 <= k <= |xs| && k < |ys| && xs[..k] == ys[..k] && (k == |xs| || IdentBelow(xs[k], ys[k]));
    if k > 0 {
      assert xs[..k][0] == ys[..k][0];
      assert xs[1..][..k - 1] == xs[..k][1..] && ys[1..][..k - 1] == ys[..k][1..];
    }
  }

  lemma ToPrereleaseBelow(xs: seq<string>, ys: seq<string>)
    requires xs != [] && ys != [] && xs[0] == ys[0] && PrereleaseBelow(xs[1..], ys[1..])
    ensures PrereleaseBelow(xs, ys)
  {
    var k :| 0 <= k <= |xs[1..]| && k < |ys[1..]| && xs[1..][..k] == ys[1..][..k]
             && (k == |xs[1..]| || IdentBelow(xs[1..][k], ys[1..][k]));
    assert xs[..k + 1] == [xs[0]] + xs[1..][..k] && ys[..k + 1] == [ys[0]] + ys[1..][..k];
  }

  lemma PrereleaseBelowTail(xs: seq<string>, ys: seq<string>)
    requires xs != [] && ys != []
    ensures PrereleaseBelow(xs, ys) <==> IdentBelow(xs[0], ys[0]) || (xs[0] == ys[0] && PrereleaseBelow(xs[1..], ys[1..]))
  {
    if PrereleaseBelow(xs, ys) {
      FromPrereleaseBelow(xs, ys);
    }
    if IdentBelow(xs[0], ys[0]) {
      assert xs[..0] == ys[..0];
    }
    if xs[0] == ys[0] && PrereleaseBelow(xs[1..], ys[1..]) {
      ToPrereleaseBelow(xs, ys);
    }
  }

  lemma {:induction false} IdentsExactly(xs: seq<string>, ys: seq<string>)
    requires ArePrereleaseIdents(xs) && ArePrereleaseIdents(ys)
    ensures CompareIdents(xs, ys) < 0 <==> PrereleaseBelow(xs, ys)
    ensures CompareIdents(xs, ys) == 0 <==> xs == ys
  {
    if xs == [] {
      if ys != [] {
        assert xs[..0] == ys[..0];
      }
    } else if ys != [] {
      IdentExactly(xs[0], ys[0]);
      IdentsExactly(xs[1..], ys[1..]);
      assert xs == [xs[0]] + xs[1..] && ys == [ys[0]] + ys[1..];
      PrereleaseBelowTail(xs, ys);
    }
  }

  /**
   Versions compare as their number triples do; of equal ones a pre-release is below its release, and two
   pre-releases compare identifier by identifier.
   */
  lemma PrecedenceOfReleases(v: string, w: string, p: Version, q: Version)
    requires Parse(v) == Some(p) && Parse(w) == Some(q)
    ensures HasNumerals(p) && HasNumerals(q)
    ensures NumberOrder(p, q) != 0 ==> Compare(v, w) == NumberOrder(p, q)
    ensures NumberOrder(p, q) == 0 && p.prerelease == [] && q.prerelease == [] ==> Compare(v, w) == 0
    ensures NumberOrder(p, q) == 0 && p.prerelease != [] && q.prerelease == [] ==> Compare(v, w) < 0
    ensures NumberOrder(p, q) == 0 && p.prerelease != [] && q.prerelease != [] ==>
              (Compare(v, w) < 0 <==> PrereleaseBelow(p.prerelease, q.prerelease))
              && (Compare(v, w) == 0 <==> p.prerelease == q.prerelease)
  {
    CompareByNumbers(p, q);
    IdentsExactly(p.prerelease, q.prerelease);
  }

  // ----- Which texts are versions -----

  function PrintedPrerelease(idents: seq<string>): string
  {
    if idents == [] then "" else "-" + Join(idents, '.')
  }

  function PrintedBuild(idents: seq<string>): string
  {
    if idents == [] then "" else "+" + Join(idents, '.')
  }

  /** The text of a version. */
  function Printed(p: Version): string
  {
    "v" + (p.major + (if p.written == 1 then ""
                      else "." + (p.minor + (if p.written == 2 then ""
                                             else "." + (p.patch + (PrintedPrerelease(p.prerelease) + PrintedBuild(p.build)))))))
  }

  predicate AreIdents(idents: seq<string>)
  {
    forall i :: 0 <= i < |idents| ==> IsIdent(idents[i])
  }

  /** What a version text can say: absent numbers read 0, and only three numbers are followed by anything. */
  ghost predicate WellFormed(p: Version)
  {
    && HasNumerals(p) && 1 <= p.written <= 3 && ArePrereleaseIdents(p.prerelease) && AreIdents(p.build)
    && (p.written < 2 ==> p.minor == "0")
    && (p.written < 3 ==> p.patch == "0" && p.prerelease == [] && p.build == [])
  }

  /** Numerals are the decimals of the natural numbers. */
  lemma NumeralExactly(s: string)
    ensures IsNumeral(s) <==> exists n: nat :: s == Decimal(n)
  {
    if IsNumeral(s) {
      DecimalOfValue(s);
    }
    if n: nat :| s == Decimal(n) {
      DecimalIsCanonical(n);
    }
  }

  /** The ASCII codes of digits, letters and the hyphen. */
  lemma IdentCharsExactly(c: char)
    ensures IsIdentChar(c)
            <==> c as int == 45 || 48 <= c as int <= 57 || 65 <= c as int <= 90 || 97 <= c as int <= 122
  {
  }

  /** An identifier is a non-empty text of such characters. */
  lemma IdentTextsExactly(s: string)
    ensures IsIdent(s)
            <==> |s| > 0
                 && forall i :: 0 <= i < |s| ==>
                      var n := s[i] as int; n == 45 || 48 <= n <= 57 || 65 <= n <= 90 || 97 <= n <= 122
  {
  }

  lemma {:induction false} JoinHasOnly(idents: seq<string>)
    requires AreIdents(idents)
    ensures '+' !in Join(idents, '.')
  {
    if |idents| > 1 {
      JoinHasOnly(idents[1..]);
    }
  }

  lemma SplitOfJoinIdents(idents: seq<string>)
    requires AreIdents(idents) && idents != []
    ensures Split(Join(idents, '.'), '.') == idents
  {
    SplitOfJoin(idents, '.');
  }

  lemma ParseOfPrintedBuild(build: seq<string>)
    requires AreIdents(build)
    ensures ParseBuild(PrintedBuild(build)) == Some(build)
  {
    if build != [] {
      assert PrintedBuild(build)[1..] == Join(build, '.');
      SplitOfJoinIdents(build);
    }
  }

  lemma ParseOfPrintedPrerelease(idents: seq<string>, rest: string)
    requires ArePrereleaseIdents(idents) && (rest == "" || rest[0] == '+')
    ensures ParsePrerelease(PrintedPrerelease(idents) + rest) == Some((idents, rest))
  {
    if idents == [] {
      assert PrintedPrerelease(idents) + rest == rest;
    } else {
      var joined := Join(idents, '.');
      var s := "-" + joined + rest;
      assert PrintedPrerelease(idents) + rest == s;
      JoinHasOnly(idents);
      if rest == "" {
        FindAbsent(s, '+');
      } else {
        assert s == ("-" + joined) + ['+'] + rest[1..];
        FindAt("-" + joined, '+', rest[1..]);
      }
      assert s[1..|joined| + 1] == joined && s[|joined| + 1..] == rest;
      SplitOfJoinIdents(idents);
    }
  }

  lemma ParseOfPrintedSuffix(p: Version)
    requires WellFormed(p) && p.written == 3
    ensures ParseAfterPatch(p.major, p.minor, p.patch, PrintedPrerelease(p.prerelease) + PrintedBuild(p.build)) == Some(p)
  {
    ParseOfPrintedPrerelease(p.prerelease, PrintedBuild(p.build));
    ParseOfPrintedBuild(p.build);
  }

  lemma ParseIntOfNumeral(s: string, rest: string)
    requires IsNumeral(s) && (rest == "" || !IsDigit(rest[0]))
    ensures ParseInt(s + rest) == Some((s, rest))
  {
    DigitRunOf(s, rest);
    assert (s + rest)[..|s|] == s && (s + rest)[|s|..] == rest;
  }

  lemma ParseOfPrintedPatch(p: Version)
    requires WellFormed(p) && p.written == 3
    ensures ParseAfterMinor(p.major, p.minor, "." + (p.patch + (PrintedPrerelease(p.prerelease) + PrintedBuild(p.build)))) == Some(p)
  {
    var suffix := PrintedPrerelease(p.prerelease) + PrintedBuild(p.build);
    ParseIntOfNumeral(p.patch, suffix);
    ParseOfPrintedSuffix(p);
    assert ("." + (p.patch + suffix))[1..] == p.patch + suffix;
  }

  /** What follows the minor numeral in the text of a version. */
  function AfterMinor(p: Version): string
  {
    if p.written == 2 then "" else "." + (p.patch + (PrintedPrerelease(p.prerelease) + PrintedBuild(p.build)))
  }

  lemma ParseOfPrintedMinor(p: Version)
    requires WellFormed(p) && p.written >= 2
    ensures ParseAfterMajor(p.major, "." + (p.minor + AfterMinor(p))) == Some(p)
  {
    ParseIntOfNumeral(p.minor, AfterMinor(p));
    assert ("." + (p.minor + AfterMinor(p)))[1..] == p.minor + AfterMinor(p);
    if p.written == 3 {
      ParseOfPrintedPatch(p);
    }
  }

  lemma ParseOfText(p: Version)
    requires WellFormed(p)
    ensures Parse(Printed(p)) == Some(p)
  {
    var rest := if p.written == 1 then "" else "." + (p.minor + AfterMinor(p));
    assert Printed(p) == "v" + (p.major + rest) && Printed(p)[1..] == p.major + rest;
    ParseIntOfNumeral(p.major, rest);
    if p.written >= 2 {
      ParseOfPrintedMinor(p);
    }
  }

  lemma TextOfBuild(s: string)
    requires ParseBuild(s).Some?
    ensures AreIdents(ParseBuild(s).value) && s == PrintedBuild(ParseBuild(s).value)
  {
    if s != "" {
      JoinOfSplit(s[1..], '.');
      assert s == "+" + s[1..];
    }
  }

  lemma TextOfPrerelease(s: string)
    requires ParsePrerelease(s).Some?
    ensures s == PrintedPrerelease(ParsePrerelease(s).value.0) + ParsePrerelease(s).value.1
  {
    if s != "" && s[0] == '-' {
      var end := Find(s, '+');
      JoinOfSplit(s[1..end], '.');
      assert s == "-" + s[1..end] + s[end..];
    } else {
      assert PrintedPrerelease([]) + s == s;
    }
  }

  lemma TextOfSuffix(major: string, minor: string, patch: string, s: string)
    requires ParseAfterPatch(major, minor, patch, s).Some?
    ensures var p := ParseAfterPatch(major, minor, patch, s).value;
            AreIdents(p.build) && s == PrintedPrerelease(p.prerelease) + PrintedBuild(p.build)
  {
    TextOfPrerelease(s);
    TextOfBuild(ParsePrerelease(s).value.1);
  }

  lemma TextAfterMinor(major: string, minor: string, s: string)
    requires IsNumeral(major) && IsNumeral(minor) && ParseAfterMinor(major, minor, s).Some?
    ensures var p := ParseAfterMinor(major, minor, s).value;
            WellFormed(p) && p.written >= 2 && s == AfterMinor(p)
  {
    if s != "" {
      var (patch, suffix) := ParseInt(s[1..]).value;
      TextOfSuffix(major, minor, patch, suffix);
      assert s == "." + (patch + suffix);
    }
  }

  lemma TextAfterMajor(major: string, s: string)
    requires IsNumeral(major) && ParseAfterMajor(major, s).Some?
    ensures var p := ParseAfterMajor(major, s).value;
            WellFormed(p) && s == if p.written == 1 then "" else "." + (p.minor + AfterMinor(p))
  {
    if s != "" {
      var (minor, rest) := ParseInt(s[1..]).value;
      TextAfterMinor(major, minor, rest);
      assert s == "." + (minor + rest);
    }
  }

  lemma PrintedIsText(p: Version, rest: string)
    requires rest == if p.written == 1 then "" else "." + (p.minor + AfterMinor(p))
    ensures Printed(p) == "v" + (p.major + rest)
  {
  }

  lemma PartsOfVersion(v: string)
    requires IsValid(v)
    ensures v != "" && v[0] == 'v' && ParseInt(v[1..]).Some?
    ensures var (major, rest) := ParseInt(v[1..]).value;
            IsNumeral(major) && v[1..] == major + rest && Parse(v) == ParseAfterMajor(major, rest)
  {
  }

  lemma TextFromParts(v: string, rest: string, p: Version)
    requires v != "" && v[0] == 'v' && v[1..] == p.major + rest
    requires rest == if p.written == 1 then "" else "." + (p.minor + AfterMinor(p))
    ensures v == Printed(p)
  {
    assert v == ['v'] + v[1..];
    PrintedIsText(p, rest);
  }

  lemma TextOfVersion(v: string)
    requires IsValid(v)
    ensures WellFormed(Parse(v).value) && v == Printed(Parse(v).value)
  {
    PartsOfVersion(v);
    var (major, rest) := ParseInt(v[1..]).value;
    TextAfterMajor(major, rest);
    TextFromParts(v, rest, ParseAfterMajor(major, rest).value);
  }

  /** A text is a version exactly when it is the text of one, which it then determines. */
  lemma ParsesExactly(v: string, p: Version)
    ensures Parse(v) == Some(p) <==> WellFormed(p) && v == Printed(p)
  {
    if Parse(v) == Some(p) {
      TextOfVersion(v);
    }
    if WellFormed(p) {
      ParseOfText(p);
    }
  }

  // ----- Printed versions -----

  lemma ParseIntOfDecimal(n: nat, rest: string)
    requires rest == "" || !IsDigit(rest[0])
    ensures ParseInt(Decimal(n) + rest) == Some((Decimal(n), rest)) && IsNumeral(Decimal(n))
  {
    DigitRunOf(Decimal(n), rest);
    DecimalIsCanonical(n);
    assert (Decimal(n) + rest)[..|Decimal(n)|] == Decimal(n) && (Decimal(n) + rest)[|Decimal(n)|..] == rest;
  }

  function Print(major: nat, minor: nat, patch: nat): string
  {
    "v" + (Decimal(major) + ("." + (Decimal(minor) + ("." + Decimal(patch)))))
  }

  lemma ParsePatch(major: string, minor: string, patch: nat)
    ensures ParseAfterMinor(major, minor, "." + Decimal(patch))
            == Some(Version(major, minor, Decimal(patch), [], [], 3))
  {
    ParseIntOfDecimal(patch, "");
    assert Decimal(patch) + "" == Decimal(patch);
    assert ("." + Decimal(patch))[1..] == Decimal(patch);
  }

  lemma ParseMinorAndPatch(major: string, minor: nat, patch: nat)
    ensures ParseAfterMajor(major, "." + (Decimal(minor) + ("." + Decimal(patch))))
            == Some(Version(major, Decimal(minor), Decimal(patch), [], [], 3))
  {
    var afterMinor := "." + Decimal(patch);
    ParseIntOfDecimal(minor, afterMinor);
    ParsePatch(major, Decimal(minor), patch);
    assert ("." + (Decimal(minor) + afterMinor))[1..] == Decimal(minor) + afterMinor;
  }

  /** A printed release parses to the three numerals it was printed from. */
  lemma ParseOfPrinted(major: nat, minor: nat, patch: nat)
    ensures Parse(Print(major, minor, patch))
            == Some(Version(Decimal(major), Decimal(minor), Decimal(patch), [], [], 3))
  {
    var rest := "." + (Decimal(minor) + ("." + Decimal(patch)));
    ParseIntOfDecimal(major, rest);
    ParseMinorAndPatch(Decimal(major), minor, patch);
    assert Print(major, minor, patch)[1..] == Decimal(major) + rest;
  }

  lemma ParseMinorOnly(major: string, minor: nat)
    ensures ParseAfterMajor(major, "." + Decimal(minor)) == Some(Version(major, Decimal(minor), "0", [], [], 2))
  {
    ParseIntOfDecimal(minor, "");
    assert Decimal(minor) + "" == Decimal(minor);
    assert ("." + Decimal(minor))[1..] == Decimal(minor);
  }

  /** A printed release line parses to its two numerals. */
  lemma ParseOfPrintedLine(major: nat, minor: nat)
    ensures Parse("v" + (Decimal(major) + ("." + Decimal(minor))))
            == Some(Version(Decimal(major), Decimal(minor), "0", [], [], 2))
  {
    var rest := "." + Decimal(minor);
    ParseIntOfDecimal(major, rest);
    ParseMinorOnly(Decimal(major), minor);
    assert ("v" + (Decimal(major) + rest))[1..] == Decimal(major) + rest;
  }

  /** Printed releases compare as their number triples, most significant first. */
  lemma PrintedCompareAsTriples(a: nat, b: nat, c: nat, a': nat, b': nat, c': nat)
    ensures Compare(Print(a, b, c), Print(a', b', c')) == Then(Sign(a, a'), Then(Sign(b, b'), Sign(c, c')))
  {
    ParseOfPrinted(a, b, c);
    ParseOfPrinted(a', b', c');
    var p := Version(Decimal(a), Decimal(b), Decimal(c), [], [], 3);
    var q := Version(Decimal(a'), Decimal(b'), Decimal(c'), [], [], 3);
    CompareByNumbers(p, q);
    ValueOfDecimal(a); ValueOfDecimal(b); ValueOfDecimal(c);
    ValueOfDecimal(a'); ValueOfDecimal(b'); ValueOfDecimal(c');
  }
}
