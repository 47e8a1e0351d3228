/**
 The semantic-version kernel: versions, their precedence (section 11 of
 Semantic Versioning 2.0.0), the textual form the `semver` package accepts,
 and increments by one release level (items 6-8 of the same document, plus the
 package's rule for versions that carry a pre-release tag).
 */
module Semver {
  import opened Wrappers
  import opened Text

  /** The `semver` package refuses version strings longer than this. */
  const MaxLength: nat := 256
  /** `Number.MAX_SAFE_INTEGER`, the largest version component the package accepts. */
  const MaxSafeInteger: nat := 9007199254740991

  /** A pre-release identifier: numeric, or alphanumeric (letters, digits and hyphens). */
  datatype Ident = Num(n: nat) | Alnum(s: string)

  /** `major.minor.patch[-pre]`; build metadata plays no part in precedence and is dropped. */
  datatype Version = Version(major: nat, minor: nat, patch: nat, pre: seq<Ident>)

  /** The release levels a bump may advance. */
  datatype Level = Major | Minor | Patch

  predicate IsStable(v: Version) {
    v.pre == []
  }

  function Zero(): Version {
    Version(0, 0, 0, [])
  }

  // ---------------------------------------------------------------------------
  // Precedence
  // ---------------------------------------------------------------------------

  function CompareNat(a: nat, b: nat): (r: int)
    ensures r == 0 <==> a == b
    ensures r < 0 <==> a < b
    ensures -1 <= r <= 1
  {
    if a < b then -1 else if a > b then 1 else 0
  }

  /** Numeric identifiers compare numerically and sort before alphanumeric ones,
      which compare by character code. */
  function CompareIdent(a: Ident, b: Ident): (r: int)
    ensures -1 <= r <= 1
    ensures r == 0 <==> a == b
  {
    match (a, b)
    case (Num(x), Num(y)) => CompareNat(x, y)
    case (Num(_), Alnum(_)) => -1
    case (Alnum(_), Num(_)) => 1
    case (Alnum(x), Alnum(y)) =>
      if x == y then 0
      else if Less(x, y) then -1
      else 1
  }

  /** Identifier lists compare field by field; a proper prefix sorts first. */
  function CompareIdents(a: seq<Ident>, b: seq<Ident>): (r: int)
    ensures -1 <= r <= 1
  {
    if |a| == 0 && |b| == 0 then 0
    else if |a| == 0 then -1
    else if |b| == 0 then 1
    else
      var c := CompareIdent(a[0], b[0]);
      if c != 0 then c else CompareIdents(a[1..], b[1..])
  }

  /** A version without a pre-release tag has higher precedence than one with. */
  function ComparePre(a: seq<Ident>, b: seq<Ident>): (r: int)
    ensures -1 <= r <= 1
  {
    if |a| == 0 && |b| == 0 then 0
    else if |a| == 0 then 1
    else if |b| == 0 then -1
    else CompareIdents(a, b)
  }

  /** `semver.compare`: -1, 0 or 1 as `a` has lower, equal or higher precedence than `b`. */
  function Compare(a: Version, b: Version): (r: int)
    ensures -1 <= r <= 1
  {
    var c1 := CompareNat(a.major, b.major);
    if c1 != 0 then c1
    else
      var c2 := CompareNat(a.minor, b.minor);
      if c2 != 0 then c2
      else
        var c3 := CompareNat(a.patch, b.patch);
        if c3 != 0 then c3 else ComparePre(a.pre, b.pre)
  }

  predicate Lt(a: Version, b: Version) {
    Compare(a, b) < 0
  }

  predicate Le(a: Version, b: Version) {
    Compare(a, b) <= 0
  }

  lemma IdentAntisymmetric(a: Ident, b: Ident)
    ensures CompareIdent(a, b) == -CompareIdent(b, a)
  {
    if a.Alnum? && b.Alnum? && a.s != b.s {
      LessTotal(a.s, b.s);
      LessAsymmetric(a.s, b.s);
    }
  }

  lemma {:induction false} IdentsAntisymmetric(a: seq<Ident>, b: seq<Ident>)
    ensures CompareIdents(a, b) == -CompareIdents(b, a)
  {
    if |a| > 0 && |b| > 0 {
      IdentAntisymmetric(a[0], b[0]);
      IdentsAntisymmetric(a[1..], b[1..]);
    }
  }

  lemma {:induction false} IdentsZero(a: seq<Ident>, b: seq<Ident>)
    ensures CompareIdents(a, b) == 0 <==> a == b
  {
    if |a| > 0 && |b| > 0 {
      IdentsZero(a[1..], b[1..]);
      assert a == [a[0]] + a[1..] && b == [b[0]] + b[1..];
    }
  }

  /** Precedence is antisymmetric: swapping the operands negates the comparison. */
  lemma CompareAntisymmetric(a: Version, b: Version)
    ensures Compare(a, b) == -Compare(b, a)
  {
    IdentsAntisymmetric(a.pre, b.pre);
  }

  /** Two versions have equal precedence exactly when they are the same version. */
  lemma CompareZero(a: Version, b: Version)
    ensures Compare(a, b) == 0 <==> a == b
  {
    IdentsZero(a.pre, b.pre);
  }

  lemma IdentTransitive(a: Ident, b: Ident, c: Ident)
    requires CompareIdent(a, b) <= 0 && CompareIdent(b, c) <= 0
    ensures CompareIdent(a, c) <= 0
    ensures CompareIdent(a, b) < 0 || CompareIdent(b, c) < 0 ==> CompareIdent(a, c) < 0
  {
    if a.Alnum? && b.Alnum? && c.Alnum? {
      if a.s != b.s && b.s != c.s {
        LessTransitive(a.s, b.s, c.s);
        LessAsymmetric(a.s, c.s);
      }
    }
  }

  lemma {:induction false} IdentsTransitive(a: seq<Ident>, b: seq<Ident>, c: seq<Ident>)
    requires CompareIdents(a, b) <= 0 && CompareIdents(b, c) <= 0
    ensures CompareIdents(a, c) <= 0
  {
    if |a| > 0 && |b| > 0 && |c| > 0 {
      IdentTransitive(a[0], b[0], c[0]);
      if CompareIdent(a[0], b[0]) == 0 && CompareIdent(b[0], c[0]) == 0 {
        IdentsTransitive(a[1..], b[1..], c[1..]);
      }
    }
  }

  /** Precedence is transitive. */
  lemma CompareTransitive(a: Version, b: Version, c: Version)
    requires Le(a, b) && Le(b, c)
    ensures Le(a, c)
  {
    if a.major == b.major == c.major && a.minor == b.minor == c.minor && a.patch == b.patch == c.patch {
      if |a.pre| > 0 && |b.pre| > 0 && |c.pre| > 0 {
        IdentsTransitive(a.pre, b.pre, c.pre);
      }
    }
  }

  /** A strict step followed by a weak one is strict. */
  lemma LtLeTransitive(a: Version, b: Version, c: Version)
    requires (Lt(a, b) && Le(b, c)) || (Le(a, b) && Lt(b, c))
    ensures Lt(a, c)
  {
    CompareTransitive(a, b, c);
    if Compare(a, c) == 0 {
      CompareZero(a, c);
      CompareAntisymmetric(a, b);
      CompareAntisymmetric(b, c);
      CompareZero(a, b);
      CompareZero(b, c);
    }
  }

  /** Any two versions are comparable. */
  lemma CompareTotal(a: Version, b: Version)
    ensures Le(a, b) || Le(b, a)
  {
    CompareAntisymmetric(a, b);
  }

  // ---------------------------------------------------------------------------
  // Text form
  // ---------------------------------------------------------------------------

  predicate IsIdentChar(c: char) {
    IsDigit(c) || ('a' <= c <= 'z') || ('A' <= c <= 'Z') || c == '-'
  }

  predicate IsIdentText(s: string) {
    |s| > 0 && forall k :: 0 <= k < |s| ==> IsIdentChar(s[k])
  }

  /** A major, minor or patch component: a numeral no larger than `MaxSafeInteger`. */
  function ParseComponent(s: string): (r: Option<nat>)
    ensures r.Some? ==> IsNumeral(s) && r.value <= MaxSafeInteger
  {
    if IsNumeral(s) && DigitsValue(s) <= MaxSafeInteger then Some(DigitsValue(s)) else None
  }

  /** A pre-release identifier; numerals below `MaxSafeInteger` become numbers, as the
      package stores them, and larger numerals stay text. */
  function ParseIdent(s: string): (r: Option<Ident>)
    ensures r.Some? ==> IsIdentText(s)
    ensures r.Some? && r.value.Num? ==> IsNumeral(s) && r.value.n < MaxSafeInteger
  {
    if IsNumeral(s) then
      if DigitsValue(s) < MaxSafeInteger then Some(Num(DigitsValue(s))) else Some(Alnum(s))
    else if IsIdentText(s) && !AllDigits(s) then Some(Alnum(s))
    else None
  }

  function ParseIdents(parts: seq<string>): (r: Option<seq<Ident>>)
    ensures r.Some? ==> |r.value| == |parts|
  {
    if |parts| == 0 then Some([])
    else
      match (ParseIdent(parts[0]), ParseIdents(parts[1..]))
      case (Some(i), Some(rest)) => Some([i] + rest)
      case _ => None
  }

  predicate IsBuildText(s: string) {
    var parts := Split(s, '.');
    forall k :: 0 <= k < |parts| ==> IsIdentText(parts[k])
  }

  /** `new SemVer(s)` without the loose option: surrounding white space and one leading
      `v` are ignored, then `X.Y.Z`, an optional `-pre` and an optional `+build`. */
  function Parse(s: string): (r: Option<Version>)
    ensures r.Some? ==> |s| <= MaxLength
    ensures r.Some? ==> r.value.major <= MaxSafeInteger && r.value.minor <= MaxSafeInteger
                        && r.value.patch <= MaxSafeInteger
  {
    if |s| > MaxLength then None else ParseUnpadded(StripV(Trim(s)))
  }

  function StripV(t: string): string {
    if |t| > 0 && t[0] == 'v' then t[1..] else t
  }

  /** Everything after the first `+` is build metadata, which must be well formed. */
  function ParseUnpadded(u: string): (r: Option<Version>)
    ensures r.Some? ==> r.value.major <= MaxSafeInteger && r.value.minor <= MaxSafeInteger
                        && r.value.patch <= MaxSafeInteger
  {
    match IndexOf(u, '+')
    case None => ParseCore(u)
    case Some(i) => if IsBuildText(u[i + 1..]) then ParseCore(u[..i]) else None
  }

  /** Everything after the first `-` is the pre-release tag. */
  function ParseCore(core: string): (r: Option<Version>)
    ensures r.Some? ==> r.value.major <= MaxSafeInteger && r.value.minor <= MaxSafeInteger
                        && r.value.patch <= MaxSafeInteger
  {
    match IndexOf(core, '-')
    case None => ParseMain(core, [])
    case Some(i) =>
      match ParseIdents(Split(core[i + 1..], '.'))
      case None => None
      case Some(pre) => ParseMain(core[..i], pre)
  }

  function ParseMain(main: string, pre: seq<Ident>): (r: Option<Version>)
    ensures r.Some? ==> r.value.major <= MaxSafeInteger && r.value.minor <= MaxSafeInteger
                        && r.value.patch <= MaxSafeInteger
  {
    var parts := Split(main, '.');
    if |parts| != 3 then None
    else
      match (ParseComponent(parts[0]), ParseComponent(parts[1]), ParseComponent(parts[2]))
      case (Some(x), Some(y), Some(z)) => Some(Version(x, y, z, pre))
      case _ => None
  }

  predicate IsValid(s: string) {
    Parse(s).Some?
  }

  /** `semver.compare` on two strings; `None` where the package throws on invalid text. */
  function CompareText(a: string, b: string): (r: Option<int>)
    ensures r.Some? <==> IsValid(a) && IsValid(b)
    ensures r.Some? ==> -1 <= r.value <= 1
    ensures r.Some? ==> r.value == Compare(Parse(a).value, Parse(b).value)
  {
    var x := Parse(a);
    var y := Parse(b);
    if x.None? || y.None? then None else Some(Compare(x.value, y.value))
  }

  lemma CompareTextReflexive(a: string)
    requires IsValid(a)
    ensures CompareText(a, a) == Some(0)
  {
    CompareZero(Parse(a).value, Parse(a).value);
  }

  /** Two texts compare equal exactly when both are valid and name the same version
      (build metadata aside). */
  lemma CompareTextZero(a: string, b: string)
    ensures CompareText(a, b).Some? && CompareText(a, b).value == 0
        <==> IsValid(a) && IsValid(b) && Parse(a) == Parse(b)
  {
    if IsValid(a) && IsValid(b) {
      CompareZero(Parse(a).value, Parse(b).value);
    }
  }

  lemma CompareTextAntisymmetric(a: string, b: string)
    requires CompareText(a, b).Some?
    ensures CompareText(b, a).Some? && CompareText(b, a).value == -CompareText(a, b).value
  {
    ParsedAntisymmetric(a, b);
  }

  lemma ParsedAntisymmetric(a: string, b: string)
    requires IsValid(a) && IsValid(b)
    ensures Compare(Parse(b).value, Parse(a).value) == -Compare(Parse(a).value, Parse(b).value)
  {
    CompareAntisymmetric(Parse(a).value, Parse(b).value);
  }

  /** The text of a stable version, `X.Y.Z`, as `SemVer.format` writes it. */
  function Format(v: Version): (s: string)
    requires IsStable(v)
    ensures |s| > 0 && IsDigit(s[0]) && IsDigit(s[|s| - 1])
  {
    NatToString(v.major) + "." + NatToString(v.minor) + "." + NatToString(v.patch)
  }

  lemma Pow10Sixteen()
    ensures Pow10(16) == 10000000000000000
  {
    assert Pow10(4) == 10000;
    assert Pow10(8) == 100000000;
    assert Pow10(12) == 1000000000000;
  }

  lemma ComponentRoundTrip(n: nat)
    requires n <= MaxSafeInteger
    ensures ParseComponent(NatToString(n)) == Some(n)
    ensures |NatToString(n)| <= 16
  {
    Pow10Sixteen();
    NatToStringLength(n, 16);
  }

  /** Reading back the text of a stable version gives the version. */
  lemma FormatRoundTrip(v: Version)
    requires IsStable(v)
    requires v.major <= MaxSafeInteger && v.minor <= MaxSafeInteger && v.patch <= MaxSafeInteger
    ensures Parse(Format(v)) == Some(v)
  {
    var a, b, c := NatToString(v.major), NatToString(v.minor), NatToString(v.patch);
    ComponentRoundTrip(v.major);
    ComponentRoundTrip(v.minor);
    ComponentRoundTrip(v.patch);
    var s := a + "." + b + "." + c;
    assert s == Format(v);
    DottedText(a, b, c);
    assert |s| <= MaxLength;
    assert s[0] == a[0] && s[|s| - 1] == c[|c| - 1];
    TrimDigits(s);
    ParsePlain(s);
    MainRoundTrip(a, b, c);
  }

  /** Whatever the size of its components, the text of a stable version never reads
      back as a different version (it is rejected when a component is too large). */
  lemma FormatReadsBack(v: Version)
    requires IsStable(v)
    ensures Parse(Format(v)).Some? ==> Parse(Format(v)) == Some(v)
  {
    var a, b, c := NatToString(v.major), NatToString(v.minor), NatToString(v.patch);
    var s := a + "." + b + "." + c;
    assert s == Format(v);
    if |s| <= MaxLength {
      DottedText(a, b, c);
      assert s[0] == a[0] && s[|s| - 1] == c[|c| - 1];
      TrimDigits(s);
      ParsePlain(s);
    }
  }

  lemma TrimDigits(s: string)
    requires |s| > 0 && IsDigit(s[0]) && IsDigit(s[|s| - 1])
    ensures StripV(Trim(s)) == s
  {
    DigitNotSpace(s[0]);
    DigitNotSpace(s[|s| - 1]);
    TrimIdentity(s);
  }

  lemma ParsePlain(s: string)
    requires |s| <= MaxLength && StripV(Trim(s)) == s && '+' !in s && '-' !in s
    ensures Parse(s) == ParseMain(s, [])
  {
    assert IndexOf(s, '+').None?;
    assert IndexOf(s, '-').None?;
  }

  lemma DigitNotSpace(c: char)
    requires IsDigit(c)
    ensures !IsSpace(c) && c != 'v'
  {
  }

  /** `a.b.c` for three numerals is made of digits and dots, and splits back. */
  lemma DottedText(a: string, b: string, c: string)
    requires IsNumeral(a) && IsNumeral(b) && IsNumeral(c)
    ensures var s := a + "." + b + "." + c;
      && '+' !in s && '-' !in s
      && Split(s, '.') == [a, b, c]
  {
    DigitsAndDots(a, b, c);
    var s := a + "." + b + "." + c;
    assert Join([a, b, c], '.') == s by {
      assert Join([b, c], '.') == b + "." + c by {
        assert [b, c][1..] == [c];
      }
      assert [a, b, c][1..] == [b, c];
    }
    assert '.' !in a && '.' !in b && '.' !in c;
    SplitJoin([a, b, c], '.');
  }

  lemma DigitsAndDots(a: string, b: string, c: string)
    requires AllDigits(a) && AllDigits(b) && AllDigits(c)
    ensures '+' !in a + "." + b + "." + c && '-' !in a + "." + b + "." + c
  {
    var s := a + "." + b + "." + c;
    forall k | 0 <= k < |s|
      ensures IsDigit(s[k]) || s[k] == '.'
    {
      if k < |a| {
        assert s[k] == a[k];
      } else if |a| < k < |a| + 1 + |b| {
        assert s[k] == b[k - |a| - 1];
      } else if k > |a| + 1 + |b| {
        assert s[k] == c[k - |a| - |b| - 2];
      }
    }
  }

  lemma MainRoundTrip(a: string, b: string, c: string)
    requires ParseComponent(a).Some? && ParseComponent(b).Some? && ParseComponent(c).Some?
    requires Split(a + "." + b + "." + c, '.') == [a, b, c]
    ensures ParseMain(a + "." + b + "." + c, [])
         == Some(Version(ParseComponent(a).value, ParseComponent(b).value, ParseComponent(c).value, []))
  {
  }

  // ---------------------------------------------------------------------------
  // Increment
  // ---------------------------------------------------------------------------

  /** `semver.inc(v, level)`. A version with a pre-release tag first advances to the
      release it precedes, when that release is at the requested level. */
  function Inc(v: Version, level: Level): (r: Version)
    ensures OnLevel(r, level)
    ensures Lt(v, r)
    ensures forall w :: OnLevel(w, level) && Lt(v, w) ==> Le(r, w)
    ensures IsStable(v) ==> match level
                            case Major => r == Version(v.major + 1, 0, 0, [])
                            case Minor => r == Version(v.major, v.minor + 1, 0, [])
                            case Patch => r == Version(v.major, v.minor, v.patch + 1, [])
  {
    match level
    case Major =>
      if v.minor != 0 || v.patch != 0 || v.pre == [] then Version(v.major + 1, 0, 0, [])
      else Version(v.major, 0, 0, [])
    case Minor =>
      if v.patch != 0 || v.pre == [] then Version(v.major, v.minor + 1, 0, [])
      else Version(v.major, v.minor, 0, [])
    case Patch =>
      if v.pre == [] then Version(v.major, v.minor, v.patch + 1, [])
      else Version(v.major, v.minor, v.patch, [])
  }

  /** The stable versions a bump at `level` may land on. */
  predicate OnLevel(w: Version, level: Level) {
    IsStable(w) && match level
                   case Major => w.minor == 0 && w.patch == 0
                   case Minor => w.patch == 0
                   case Patch => true
  }
}
