/** Version comparison of the update checker and of the update manager,
    the platform guess from a release file name, and the choice of a
    release asset for the running platform. */
module Versions {
  import opened Strings

  /** `re.sub(r'^[vV]', '', s)`: one leading `v` or `V` removed. */
  function StripV(s: string): (r: string)
    ensures |r| == |s| ==> r == s
    ensures |r| < |s| <==> |s| > 0 && (s[0] == 'v' || s[0] == 'V')
    ensures |r| < |s| ==> r == s[1..]
  {
    if |s| > 0 && (s[0] == 'v' || s[0] == 'V') then s[1..] else s
  }

  /** Removing the prefix commutes with appending text that cannot become
      a leading `v`. */
  lemma StripVAppend(b: string, x: string)
    requires |b| > 0 || |x| == 0 || (x[0] != 'v' && x[0] != 'V')
    ensures StripV(b + x) == StripV(b) + x
  {
    if |b| > 0 {
      assert (b + x)[0] == b[0];
      assert (b + x)[1..] == b[1..] + x;
    }
  }

  /** `s.split(c, 1)` when `c` occurs in `s`: the text before the first
      `c` and the text after it. */
  function SplitFirst(s: string, c: char): (r: (string, string))
    requires c in s
    ensures c !in r.0 && s == r.0 + [c] + r.1
  {
    if s[0] == c then ("", s[1..])
    else
      assert c in s[1..] by {
        var i :| 0 <= i < |s| && s[i] == c;
        assert s[1..][i - 1] == c;
      }
      var t := SplitFirst(s[1..], c);
      assert s == [s[0]] + s[1..];
      ([s[0]] + t.0, t.1)
  }

  /** The split is at the first `c`: a text without `c` followed by `c` is
      what comes before it. */
  lemma {:induction false} SplitFirstAt(b: string, c: char, rest: string)
    requires c !in b
    ensures c in b + [c] + rest
    ensures SplitFirst(b + [c] + rest, c) == (b, rest)
    decreases |b|
  {
    var s := b + [c] + rest;
    assert s[|b|] == c;
    if |b| == 0 {
      assert s == [c] + rest;
    } else {
      assert s[0] == b[0] && s[1..] == b[1..] + [c] + rest;
      SplitFirstAt(b[1..], c, rest);
      assert [b[0]] + b[1..] == b;
    }
  }

  /** The value `_parse_version_parts` gives one dot-separated part:
      `int(part)`, or else the number its digits form, or 0. */
  function PartValue(part: string): int {
    match ParseInt(part)
    case Success(v) => v
    case Failure(_) => var d := DigitsOf(part); if d == "" then 0 else DigitsValue(d)
  }

  /** A part made of digits only has its decimal value. */
  lemma PartValueOfNat(n: nat)
    ensures PartValue(NatToString(n)) == n
  {
    ParseIntToString(n);
  }

  function PartValues(parts: seq<string>): (r: seq<int>)
    ensures |r| == |parts|
    ensures forall i :: 0 <= i < |parts| ==> r[i] == PartValue(parts[i])
  {
    seq(|parts|, i requires 0 <= i < |parts| => PartValue(parts[i]))
  }

  /** The release part of a version and whether a prerelease suffix
      follows it. */
  function MainPart(version: string): string {
    if '-' in version then SplitFirst(version, '-').0 else version
  }

  predicate IsPrerelease(version: string) {
    '-' in version && SplitFirst(version, '-').1 != ""
  }

  /** The numbers of the release part. */
  function MainParts(version: string): seq<int> {
    PartValues(Split(MainPart(version), '.'))
  }

  /** What `_parse_version_parts(version)` returns: the release part's
      numbers, then one extra 0 for a prerelease. */
  function VersionParts(version: string): (parts: seq<int>)
    ensures IsPrerelease(version) ==> |parts| >= 1 && parts[|parts| - 1] == 0
  {
    MainParts(version) + (if IsPrerelease(version) then [0] else [])
  }

  /** `_parse_version_parts(version)`. */
  method ParseVersionParts(version: string) returns (parts: seq<int>)
    ensures parts == VersionParts(version)
  {
    var main := version;
    var prerelease := "";
    if '-' in version {
      var split := SplitFirst(version, '-');
      main, prerelease := split.0, split.1;
    }
    var pieces := Split(main, '.');
    parts := [];
    var i := 0;
    while i < |pieces|
      invariant 0 <= i <= |pieces|
      invariant parts == PartValues(pieces[..i])
    {
      var value;
      match ParseInt(pieces[i]) {
        case Success(v) => value := v;
        case Failure(_) =>
          var digits := DigitsOf(pieces[i]);
          value := if digits != "" then DigitsValue(digits) else 0;
      }
      assert value == PartValue(pieces[i]);
      assert pieces[..i + 1] == pieces[..i] + [pieces[i]];
      PartValuesAppend(pieces[..i], [pieces[i]]);
      PartValuesOfOne(pieces[i]);
      parts := parts + [value];
      i := i + 1;
    }
    assert pieces[..i] == pieces;
    if prerelease != "" {
      parts := parts + [0];
    }
  }

  /** A suffix after `-` appends one 0 and nothing else: the numbers are
      those of the release. */
  lemma PrereleaseAppendsZero(b: string, s: string)
    requires '-' !in b && s != ""
    ensures VersionParts(b + "-" + s) == VersionParts(b) + [0]
  {
    SplitFirstAt(b, '-', s);
    assert MainPart(b + "-" + s) == b;
  }

  /** `l` extended with zeros to length `n`. */
  function Pad(l: seq<int>, n: nat): (r: seq<int>)
    ensures |r| == if n > |l| then n else |l|
    ensures r[..|l|] == l
    ensures forall i :: |l| <= i < |r| ==> r[i] == 0
  {
    if n > |l| then l + seq(n - |l|, _ => 0) else l
  }

  /** Padding one further adds one zero. */
  lemma PadStep(l: seq<int>, n: nat)
    requires n >= |l|
    ensures Pad(l, n + 1) == Pad(l, n) + [0]
  {
  }

  /** The sign of the first difference of two lists of equal length. */
  function LexSign(a: seq<int>, b: seq<int>): (r: int)
    requires |a| == |b|
    ensures r == 0 <==> a == b
    ensures r == 1 || r == 0 || r == -1
  {
    if |a| == 0 then 0
    else if a[0] > b[0] then 1
    else if a[0] < b[0] then -1
    else
      assert a == [a[0]] + a[1..] && b == [b[0]] + b[1..];
      LexSign(a[1..], b[1..])
  }

  /** The sign from position `i` on is decided at `i` or by the rest. */
  lemma LexSignAt(a: seq<int>, b: seq<int>, i: nat)
    requires |a| == |b| && i < |a|
    ensures LexSign(a[i..], b[i..]) ==
      if a[i] > b[i] then 1 else if a[i] < b[i] then -1 else LexSign(a[i + 1..], b[i + 1..])
  {
    assert a[i..][0] == a[i] && b[i..][0] == b[i];
    assert a[i..][1..] == a[i + 1..] && b[i..][1..] == b[i + 1..];
  }

  /** Swapping the lists negates the sign. */
  lemma {:induction false} LexSignSwap(a: seq<int>, b: seq<int>)
    requires |a| == |b|
    ensures LexSign(a, b) == -LexSign(b, a)
  {
    if |a| > 0 && a[0] == b[0] {
      LexSignSwap(a[1..], b[1..]);
    }
  }

  /** The comparison both modules make: the lists padded with zeros to
      the same length, compared element by element. */
  function PartsOrder(a: seq<int>, b: seq<int>): (r: int)
    ensures r == 1 || r == 0 || r == -1
    ensures var n := if |a| > |b| then |a| else |b|; r == 0 <==> Pad(a, n) == Pad(b, n)
  {
    var n := if |a| > |b| then |a| else |b|;
    LexSign(Pad(a, n), Pad(b, n))
  }

  /** Swapping the versions negates the order. */
  lemma PartsOrderSwap(a: seq<int>, b: seq<int>)
    ensures PartsOrder(a, b) == -PartsOrder(b, a)
  {
    var n := if |a| > |b| then |a| else |b|;
    LexSignSwap(Pad(a, n), Pad(b, n));
  }

  /** Trailing zeros do not matter. */
  lemma PartsOrderTrailingZero(a: seq<int>)
    ensures PartsOrder(a, a + [0]) == 0
  {
    assert Pad(a, |a| + 1) == a + [0];
  }

  /** The padding and comparison loops of both `compare` functions. */
  method CompareParts(a: seq<int>, b: seq<int>) returns (r: int)
    ensures r == PartsOrder(a, b)
  {
    var p1 := PadWithZeros(a, |b|);
    var p2 := PadWithZeros(b, |p1|);
    assert LexSign(p1, p2) == PartsOrder(a, b);
    var i := 0;
    while i < |p1|
      invariant 0 <= i <= |p1|
      invariant LexSign(p1[i..], p2[i..]) == LexSign(p1, p2)
    {
      LexSignAt(p1, p2, i);
      if p1[i] > p2[i] {
        return 1;
      } else if p1[i] < p2[i] {
        return -1;
      }
      i := i + 1;
    }
    return 0;
  }

  /** The loop `while len(parts) < n: parts.append(0)`. */
  method PadWithZeros(l: seq<int>, n: nat) returns (p: seq<int>)
    ensures p == Pad(l, n)
  {
    p := l;
    while |p| < n
      invariant p == Pad(l, |p|) && |p| <= (if n > |l| then n else |l|)
      decreases n - |p|
    {
      PadStep(l, |p|);
      p := p + [0];
    }
  }

  /** `compare_versions(version1, version2)` of the update checker. */
  function VersionOrder(v1: string, v2: string): (r: int)
    ensures r == 1 || r == 0 || r == -1
    ensures VersionParts(StripV(v1)) == VersionParts(StripV(v2)) ==> r == 0
  {
    PartsOrder(VersionParts(StripV(v1)), VersionParts(StripV(v2)))
  }

  /** `VersionChecker.compare_versions(version1, version2)`. */
  method CompareVersions(version1: string, version2: string) returns (r: int)
    ensures r == VersionOrder(version1, version2)
  {
    var v1 := StripV(version1);
    var v2 := StripV(version2);
    var p1 := ParseVersionParts(v1);
    var p2 := ParseVersionParts(v2);
    r := CompareParts(p1, p2);
  }

  /** The comparison is a three-way sign, reflexive and antisymmetric. */
  lemma VersionOrderSign(v1: string, v2: string)
    ensures var r := VersionOrder(v1, v2); r == 1 || r == 0 || r == -1
    ensures VersionOrder(v1, v1) == 0
    ensures VersionOrder(v1, v2) == -VersionOrder(v2, v1)
  {
    PartsOrderSwap(VersionParts(StripV(v1)), VersionParts(StripV(v2)));
  }

  /** A shorter list of parts is padded with zeros, so `a` and `a.0` are
      the same version. */
  lemma ZeroPartEqual(a: string)
    requires '-' !in a
    ensures VersionOrder(a, a + ".0") == 0
  {
    StripVAppend(a, ".0");
    var b := StripV(a);
    assert '-' !in b;
    assert '-' !in b + ".0";
    assert Split(b + ".0", '.') == Split(b, '.') + ["0"] by {
      assert b + ".0" == b + ['.'] + "0";
      SplitAppendLast(b, '.');
    }
    PartValueOfNat(0);
    assert VersionParts(b + ".0") == VersionParts(b) + [0];
    PartsOrderTrailingZero(VersionParts(b));
  }

  /** Splitting `s + ".0"` adds the piece `"0"`. */
  lemma {:induction false} SplitAppendLast(s: string, sep: char)
    requires sep != '0'
    ensures Split(s + [sep] + "0", sep) == Split(s, sep) + ["0"]
    decreases |s|
  {
    if |s| == 0 {
      assert s + [sep] + "0" == [sep, '0'];
      assert [sep, '0'][1..] == "0";
      assert Split("0", sep) == ["0"] by {
        assert "0"[1..] == "";
        assert Split("", sep) == [""];
        assert ['0'] + "" == "0" && [""][1..] == [];
      }
    } else {
      var u := s + [sep] + "0";
      assert u[0] == s[0] && u[1..] == s[1..] + [sep] + "0";
      SplitAppendLast(s[1..], sep);
      var rest := Split(s[1..], sep);
      assert Split(u[1..], sep) == rest + ["0"];
      if s[0] == sep {
        assert Split(u, sep) == [""] + (rest + ["0"]);
      } else {
        assert (rest + ["0"])[0] == rest[0];
        assert (rest + ["0"])[1..] == rest[1..] + ["0"];
        assert Split(u, sep) == [[s[0]] + rest[0]] + (rest[1..] + ["0"]);
      }
    }
  }

  /** As written, a prerelease compares equal to its release: the extra 0
      it appends is cancelled by the padding, although the code's comment
      says `1.0.0-beta` should come before `1.0.0`. */
  lemma PrereleaseEqualsRelease(b: string, s: string)
    requires '-' !in b && s != ""
    ensures VersionOrder(b + "-" + s, b) == 0
  {
    StripVAppend(b, "-" + s);
    assert b + "-" + s == b + ("-" + s);
    var c := StripV(b);
    assert '-' !in c;
    assert StripV(b + "-" + s) == c + "-" + s;
    PrereleaseAppendsZero(c, s);
    PartsOrderTrailingZero(VersionParts(c));
    VersionOrderSign(b, b + "-" + s);
  }

  /** `is_update_available(current, latest)`: the latest version is newer. */
  method IsUpdateAvailable(currentVersion: string, latestVersion: string) returns (r: bool)
    ensures r <==> VersionOrder(latestVersion, currentVersion) > 0
  {
    var c := CompareVersions(latestVersion, currentVersion);
    r := c > 0;
  }

  /** Hence someone running a prerelease is never offered its release. */
  lemma NoUpdateFromPrerelease(b: string, s: string)
    requires '-' !in b && s != ""
    ensures !(VersionOrder(b, b + "-" + s) > 0)
  {
    PrereleaseEqualsRelease(b, s);
    VersionOrderSign(b, b + "-" + s);
  }

  /** The comparison as its comment intends: the release numbers first,
      and on equal numbers a prerelease before its release. */
  function IntendedOrder(v1: string, v2: string): (r: int)
    ensures r == 1 || r == 0 || r == -1
  {
    var a, b := StripV(v1), StripV(v2);
    var c := PartsOrder(MainParts(a), MainParts(b));
    if c != 0 then c
    else if IsPrerelease(a) && !IsPrerelease(b) then -1
    else if !IsPrerelease(a) && IsPrerelease(b) then 1
    else 0
  }

  /** The intended order is reflexive and antisymmetric ... */
  lemma IntendedOrderSign(v1: string, v2: string)
    ensures IntendedOrder(v1, v1) == 0
    ensures IntendedOrder(v1, v2) == -IntendedOrder(v2, v1)
  {
    PartsOrderSwap(MainParts(StripV(v1)), MainParts(StripV(v2)));
  }

  /** ... agrees with the written one between releases ... */
  lemma IntendedAgreesOnReleases(v1: string, v2: string)
    requires !IsPrerelease(StripV(v1)) && !IsPrerelease(StripV(v2))
    ensures IntendedOrder(v1, v2) == VersionOrder(v1, v2)
  {
    assert MainParts(StripV(v1)) + [] == MainParts(StripV(v1));
    assert MainParts(StripV(v2)) + [] == MainParts(StripV(v2));
  }

  /** ... and puts a prerelease before its release, so an update to the
      release would be offered. */
  lemma IntendedPrereleaseFirst(b: string, s: string)
    requires '-' !in b && s != ""
    ensures IntendedOrder(b + "-" + s, b) == -1
  {
    StripVAppend(b, "-" + s);
    assert b + "-" + s == b + ("-" + s);
    var c := StripV(b);
    assert '-' !in c;
    assert StripV(b + "-" + s) == c + "-" + s;
    SplitFirstAt(c, '-', s);
    assert MainPart(c + "-" + s) == c;
    assert IsPrerelease(c + "-" + s);
    assert !IsPrerelease(c);
    assert PartsOrder(MainParts(c), MainParts(c)) == 0;
  }

  /** The parts `[int(x) for x in v.split('.') if x.isdigit()]` of the
      update manager: pieces that are not all digits are dropped. */
  function DigitParts(pieces: seq<string>): (r: seq<int>)
    ensures |r| <= |pieces|
  {
    if |pieces| == 0 then []
    else (if pieces[0] != "" && AllDigits(pieces[0]) then [DigitsValue(pieces[0]) as int] else [])
         + DigitParts(pieces[1..])
  }

  /** `UpdateManager._compare_versions(version1, version2)`. */
  function DigitVersionOrder(v1: string, v2: string): (r: int)
    ensures r == 1 || r == 0 || r == -1
    ensures DigitParts(Split(StripV(v1), '.')) == DigitParts(Split(StripV(v2), '.')) ==> r == 0
  {
    PartsOrder(DigitParts(Split(StripV(v1), '.')), DigitParts(Split(StripV(v2), '.')))
  }

  method CompareDigitVersions(version1: string, version2: string) returns (r: int)
    ensures r == DigitVersionOrder(version1, version2)
  {
    var v1 := StripV(version1);
    var v2 := StripV(version2);
    r := CompareParts(DigitParts(Split(v1, '.')), DigitParts(Split(v2, '.')));
  }

  /** The update manager's comparison is also a reflexive, antisymmetric
      three-way sign. */
  lemma DigitVersionOrderSign(v1: string, v2: string)
    ensures var r := DigitVersionOrder(v1, v2); r == 1 || r == 0 || r == -1
    ensures DigitVersionOrder(v1, v1) == 0
    ensures DigitVersionOrder(v1, v2) == -DigitVersionOrder(v2, v1)
  {
    PartsOrderSwap(DigitParts(Split(StripV(v1), '.')), DigitParts(Split(StripV(v2), '.')));
  }

  lemma SplitExamples()
    ensures Split("1.x.3", '.') == ["1", "x", "3"]
    ensures Split("1.3", '.') == ["1", "3"]
  {
    assert Split("", '.') == [""];
    assert Split("3", '.') == ["3"] by {
      assert "3"[1..] == "" && ['3'] + "" == "3" && [""][1..] == [];
    }
    assert Split(".3", '.') == ["", "3"] by { assert ".3"[1..] == "3"; }
    assert Split("x.3", '.') == ["x", "3"] by {
      assert "x.3"[1..] == ".3" && ['x'] + "" == "x" && ["", "3"][1..] == ["3"];
    }
    assert Split(".x.3", '.') == ["", "x", "3"] by { assert ".x.3"[1..] == "x.3"; }
    assert Split("1.x.3", '.') == ["1", "x", "3"] by {
      assert "1.x.3"[1..] == ".x.3" && ['1'] + "" == "1" && ["", "x", "3"][1..] == ["x", "3"];
    }
    assert Split("1.3", '.') == ["1", "3"] by {
      assert "1.3"[1..] == ".3" && ['1'] + "" == "1" && ["", "3"][1..] == ["3"];
    }
  }

  lemma PieceValueExamples()
    ensures DigitsValue("1") == 1 && DigitsValue("3") == 3
    ensures PartValue("1") == 1 && PartValue("3") == 3 && PartValue("x") == 0
    ensures !AllDigits("x")
  {
    assert "1"[..0] == "" && "3"[..0] == "";
    PartValueOfNat(1);
    PartValueOfNat(3);
    assert NatToString(1) == "1" && NatToString(3) == "3";
    NonNumberPart();
  }

  /** `x` is not a number and has no digits, so it counts as 0. */
  lemma NonNumberPart()
    ensures PartValue("x") == 0 && !AllDigits("x")
  {
    assert ParseInt("x").Failure? by {
      assert "x" == ['x'];
      ParseIntRejectsChar('x');
    }
    assert DigitsOf("x") == "" by { assert "x"[1..] == ""; }
    assert !IsDigit("x"[0]);
  }

  lemma PartValuesExample()
    ensures PartValues(["1", "x", "3"]) == [1, 0, 3]
    ensures PartValues(["1", "3"]) == [1, 3]
  {
    PieceValueExamples();
    PartValuesOfThree("1", "x", "3");
    PartValuesOfTwo("1", "3");
  }

  lemma PartValuesOfTwo(p: string, q: string)
    ensures PartValues([p, q]) == [PartValue(p), PartValue(q)]
  {
    PartValuesOfOne(p);
    PartValuesOfOne(q);
    PartValuesAppend([p], [q]);
    assert [p] + [q] == [p, q];
  }

  lemma PartValuesOfThree(p: string, q: string, r: string)
    ensures PartValues([p, q, r]) == [PartValue(p), PartValue(q), PartValue(r)]
  {
    PartValuesOfTwo(p, q);
    PartValuesOfOne(r);
    PartValuesAppend([p, q], [r]);
    assert [p, q] + [r] == [p, q, r];
  }

  lemma PartValuesOfOne(p: string)
    ensures PartValues([p]) == [PartValue(p)]
  {
  }

  lemma PartValuesAppend(a: seq<string>, b: seq<string>)
    ensures PartValues(a + b) == PartValues(a) + PartValues(b)
  {
  }

  lemma CheckerPartsExample()
    ensures VersionParts(StripV("1.x.3")) == [1, 0, 3]
    ensures VersionParts(StripV("1.3")) == [1, 3]
  {
    assert StripV("1.x.3") == "1.x.3" && StripV("1.3") == "1.3";
    assert !IsPrerelease("1.x.3") && MainPart("1.x.3") == "1.x.3" by {
      assert !('-' in "1.x.3");
    }
    assert !IsPrerelease("1.3") && MainPart("1.3") == "1.3" by {
      assert !('-' in "1.3");
    }
    SplitExamples();
    PartValuesExample();
  }

  lemma DigitPartsExample()
    ensures DigitParts(Split(StripV("1.x.3"), '.')) == [1, 3]
    ensures DigitParts(Split(StripV("1.3"), '.')) == [1, 3]
  {
    SplitExamples();
    assert "1"[..0] == "" && "3"[..0] == "";
    assert !AllDigits("x") by { assert !IsDigit("x"[0]); }
    assert StripV("1.x.3") == "1.x.3" && StripV("1.3") == "1.3";
    assert DigitParts(["3"]) == [3] by {
      assert ["3"][1..] == [];
    }
    assert DigitParts(["x", "3"]) == [3] by {
      assert ["x", "3"][1..] == ["3"];
    }
    assert DigitParts(["1", "x", "3"]) == [1, 3] by {
      assert ["1", "x", "3"][1..] == ["x", "3"];
    }
    assert DigitParts(["1", "3"]) == [1, 3] by {
      assert ["1", "3"][1..] == ["3"];
    }
  }

  /** A piece that is not a number is dropped, so the parts after it move
      up: `1.x.3` is the same version as `1.3`, where the checker reads
      it as `1.0.3`. */
  lemma NonDigitPieceDropped()
    ensures DigitVersionOrder("1.x.3", "1.3") == 0
    ensures VersionOrder("1.x.3", "1.3") == -1
  {
    DigitPartsExample();
    CheckerPartsExample();
    assert DigitVersionOrder("1.x.3", "1.3") == PartsOrder([1, 3], [1, 3]);
    assert VersionOrder("1.x.3", "1.3") == PartsOrder([1, 0, 3], [1, 3]);
    PaddedExample();
  }

  lemma PaddedExample()
    ensures PartsOrder([1, 0, 3], [1, 3]) == -1
  {
    assert Pad([1, 3], 3) == [1, 3, 0];
    assert LexSign([1, 0, 3], [1, 3, 0]) == -1 by {
      assert [1, 0, 3][1..] == [0, 3] && [1, 3, 0][1..] == [3, 0];
    }
  }

  /** The platform flags `_detect_os_from_filename` reports. */
  datatype Platforms = Platforms(windows: bool, macos: bool, linux: bool, universal: bool)

  /** `_detect_os_from_filename(filename)`: substring tests on the
      lower-cased name; `windows` and `macos` reduce to their shorter
      tests, which the longer ones contain. */
  function DetectOsFromFilename(filename: string): (r: Platforms)
    ensures var f := ToLower(filename);
      (r.windows <==> Contains(f, ".exe") || Contains(f, "win")) &&
      (r.macos <==> Contains(f, ".dmg") || Contains(f, "mac") || Contains(f, "darwin")) &&
      (r.linux <==> Contains(f, ".tar.gz") || Contains(f, ".appimage") || Contains(f, "linux")) &&
      (r.universal <==> Contains(f, "universal") || Contains(f, "all"))
  {
    var f := ToLower(filename);
    assert "win" + "dows" == "windows" && "mac" + "os" == "macos";
    ContainsPrefix(f, "win", "dows");
    ContainsPrefix(f, "mac", "os");
    Platforms(Contains(f, ".exe") || Contains(f, "win") || Contains(f, "windows"),
              Contains(f, ".dmg") || Contains(f, "mac") || Contains(f, "macos") || Contains(f, "darwin"),
              Contains(f, ".tar.gz") || Contains(f, ".appimage") || Contains(f, "linux"),
              Contains(f, "universal") || Contains(f, "all"))
  }

  /** A text containing `p + q` contains `p`. */
  lemma ContainsPrefix(s: string, p: string, q: string)
    ensures Contains(s, p + q) ==> Contains(s, p)
  {
    if Contains(s, p + q) {
      ContainsIffOccurs(s, p + q);
      var i: nat :| OccursAt(s, p + q, i);
      assert s[i..i + |p|] == (p + q)[..|p|] == p;
      assert OccursAt(s, p, i);
      ContainsIffOccurs(s, p);
    }
  }

  /** A name without capitals is its own lower-case form. */
  lemma LowerIdentity(s: string)
    requires forall i :: 0 <= i < |s| ==> !('A' <= s[i] <= 'Z')
    ensures ToLower(s) == s
  {
  }

  /** The substring tests catch more than the platform names: `darwin`
      also reads as Windows, and `install` as universal. */
  lemma DarwinReadsAsWindows()
    ensures DetectOsFromFilename("darwin").windows && DetectOsFromFilename("darwin").macos
  {
    LowerIdentity("darwin");
    assert OccursAt("darwin", "win", 3);
    ContainsIffOccurs("darwin", "win");
    assert OccursAt("darwin", "darwin", 0);
    ContainsIffOccurs("darwin", "darwin");
  }

  lemma InstallReadsAsUniversal()
    ensures DetectOsFromFilename("install").universal
  {
    LowerIdentity("install");
    assert OccursAt("install", "all", 4);
    ContainsIffOccurs("install", "all");
  }

  /** `_is_suitable_asset(asset_name)` with `platform.system().lower()` as
      `system`. The `.AppImage` test never holds on a lower-cased name, so
      Linux takes only `.tar.gz`; a universal zip suits every platform. */
  function IsSuitableAsset(assetName: string, system: string): (r: bool)
    ensures var n := ToLower(assetName);
      r <==> (system == "windows" && Contains(n, ".exe")) ||
             (system == "darwin" && (Contains(n, ".dmg") || Contains(n, ".zip"))) ||
             (system == "linux" && Contains(n, ".tar.gz")) ||
             (Contains(n, "zip") && Contains(n, "universal"))
  {
    var n := ToLower(assetName);
    NoUpperAfterLower(assetName);
    if system == "windows" && Contains(n, ".exe") then true
    else if system == "darwin" && (Contains(n, ".dmg") || Contains(n, ".zip")) then true
    else if system == "linux" && (Contains(n, ".tar.gz") || Contains(n, ".AppImage")) then true
    else Contains(n, "zip") && Contains(n, "universal")
  }

  /** A lower-cased name never contains `.AppImage`, whose `A` and `I`
      are capitals. */
  lemma NoUpperAfterLower(s: string)
    ensures !Contains(ToLower(s), ".AppImage")
  {
    var n := ToLower(s);
    forall i: nat
      ensures !OccursAt(n, ".AppImage", i)
    {
      if i + 9 <= |n| {
        assert n[i..i + 9][1] == n[i + 1] == LowerChar(s[i + 1]);
      }
    }
    ContainsIffOccurs(n, ".AppImage");
  }

  /** `_is_suitable_asset` as evidently intended: the Linux test looks for
      `.appimage` in the lower-cased name, as the platform guess does. */
  function IntendedSuitableAsset(assetName: string, system: string): (r: bool)
    ensures r <==> IsSuitableAsset(assetName, system) ||
                   (system == "linux" && Contains(ToLower(assetName), ".appimage"))
  {
    var n := ToLower(assetName);
    if system == "windows" && Contains(n, ".exe") then true
    else if system == "darwin" && (Contains(n, ".dmg") || Contains(n, ".zip")) then true
    else if system == "linux" && (Contains(n, ".tar.gz") || Contains(n, ".appimage")) then true
    else Contains(n, "zip") && Contains(n, "universal")
  }

  /** A text lacking one of the pattern's characters does not contain it. */
  lemma AbsentChar(s: string, pat: string, j: nat)
    requires j < |pat| && pat[j] !in s
    ensures !Contains(s, pat)
  {
    forall i: nat
      ensures !OccursAt(s, pat, i)
    {
      if i + |pat| <= |s| {
        assert s[i..i + |pat|][j] == s[i + j];
      }
    }
    ContainsIffOccurs(s, pat);
  }

  /** An AppImage release, with no `t` or `z` in its lower-cased name to
      make it a tarball or a zip, suits Linux under the intended test only:
      `x.AppImage` is one. */
  lemma AppImageSuitsOnlyIntended(assetName: string)
    requires Contains(ToLower(assetName), ".appimage")
    requires 't' !in ToLower(assetName) && 'z' !in ToLower(assetName)
    ensures !IsSuitableAsset(assetName, "linux")
    ensures IntendedSuitableAsset(assetName, "linux")
  {
    var n := ToLower(assetName);
    AbsentChar(n, ".tar.gz", 1);
    AbsentChar(n, "zip", 0);
  }
}
