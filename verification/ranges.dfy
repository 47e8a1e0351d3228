/**
 The part of range handling both resolver variants share: the recogniser for
 `^`/`~` specifiers written as a regular expression in the source, the
 comparator windows that the `semver` package builds for such ranges (strict)
 or that the resolvers build themselves (relaxed), and `Range.test`.
 */
module Ranges {
  import opened Wrappers
  import opened Text
  import opened Semver

  datatype Op = Caret | Tilde

  function OpChar(op: Op): char {
    match op
    case Caret => '^'
    case Tilde => '~'
  }

  // ---------------------------------------------------------------------------
  // Windows and Range.test
  // ---------------------------------------------------------------------------

  /** The comparator set `>=lo` or `>=lo <hi`. */
  datatype Window = Window(lo: Version, hi: Option<Version>)

  predicate SameTriple(a: Version, b: Version) {
    a.major == b.major && a.minor == b.minor && a.patch == b.patch
  }

  predicate InWindow(w: Window, v: Version) {
    Le(w.lo, v) && (w.hi.None? || Lt(v, w.hi.value))
  }

  /** `Range.test(v)`: inside the window, and, unless pre-releases are included, a
      pre-release only when a bound carrying a pre-release tag has the same `X.Y.Z`. */
  predicate Test(w: Window, v: Version, includePrerelease: bool) {
    && InWindow(w, v)
    && (|| includePrerelease
        || IsStable(v)
        || (!IsStable(w.lo) && SameTriple(v, w.lo))
        || (w.hi.Some? && !IsStable(w.hi.value) && SameTriple(v, w.hi.value)))
  }

  /** `Range.test` on a string: text that is not a valid version never satisfies a range. */
  predicate TestText(w: Window, s: string, includePrerelease: bool) {
    Parse(s).Some? && Test(w, Parse(s).value, includePrerelease)
  }

  /** The index of the first element of `xs` that satisfies `p`, if any. */
  function FirstIndex<T>(p: T -> bool, xs: seq<T>): (r: Option<nat>)
    ensures r.Some? ==> r.value < |xs| && p(xs[r.value])
    ensures r.Some? ==> forall k :: 0 <= k < r.value ==> !p(xs[k])
    ensures r.None? ==> forall k :: 0 <= k < |xs| ==> !p(xs[k])
  {
    if |xs| == 0 then None
    else if p(xs[0]) then Some(0)
    else
      match FirstIndex(p, xs[1..])
      case None => None
      case Some(k) =>
        assert forall m :: 1 <= m <= k ==> xs[m] == xs[1..][m - 1];
        Some(k + 1)
  }

  /** The index of the first version in `versions` that the window accepts (the loop
      `for (const v of versions) if (range.test(v)) ...`). */
  function FirstMatch(w: Window, versions: seq<string>): (r: Option<nat>)
    ensures r.Some? ==> r.value < |versions| && TestText(w, versions[r.value], false)
    ensures r.Some? ==> forall k :: 0 <= k < r.value ==> !TestText(w, versions[k], false)
    ensures r.None? ==> forall k :: 0 <= k < |versions| ==> !TestText(w, versions[k], false)
  {
    FirstIndex(s => TestText(w, s, false), versions)
  }

  /** Versions sorted by descending precedence, every one of them valid. */
  predicate SortedDescending(versions: seq<string>) {
    && (forall k :: 0 <= k < |versions| ==> IsValid(versions[k]))
    && (forall i, j :: 0 <= i < j < |versions| && IsValid(versions[i]) && IsValid(versions[j])
          ==> Le(Parse(versions[j]).value, Parse(versions[i]).value))
  }

  /** In a list sorted by descending precedence, the first accepted version is the
      greatest accepted one. */
  lemma FirstMatchIsGreatest(w: Window, versions: seq<string>, k: nat)
    requires SortedDescending(versions)
    requires k < |versions| && TestText(w, versions[k], false)
    ensures FirstMatch(w, versions).Some?
    ensures Le(Parse(versions[k]).value, Parse(versions[FirstMatch(w, versions).value]).value)
  {
    var f := FirstMatch(w, versions).value;
    if f != k {
      assert f < k;
    } else {
      CompareZero(Parse(versions[k]).value, Parse(versions[k]).value);
    }
  }

  // ---------------------------------------------------------------------------
  // Anchors and the windows built from them
  // ---------------------------------------------------------------------------

  /** The version in a specifier: `X`, `X.Y` or `X.Y.Z`, the last optionally tagged. */
  datatype Anchor = Anchor(major: nat, minor: Option<nat>, patch: Option<nat>, pre: seq<Ident>)

  predicate WellFormedAnchor(a: Anchor) {
    && (a.patch.Some? ==> a.minor.Some?)
    && (a.pre != [] ==> a.patch.Some?)
  }

  /** The version `>=X[.Y[.Z]]` stands for: missing parts are zero. */
  function Floor(a: Anchor): Version {
    Version(a.major, a.minor.GetOr(0), a.patch.GetOr(0), a.pre)
  }

  /** The bound `<X.Y.Z-0` the package writes as an exclusive upper limit. */
  function Below(major: nat, minor: nat, patch: nat): Version {
    Version(major, minor, patch, [Num(0)])
  }

  /** The widened window of non-strict mode: `>=anchor` for a caret, and
      `>=anchor <inc(anchor, major)` for a tilde, which needs a full `X.Y.Z` anchor. */
  function Relaxed(op: Op, a: Anchor): (r: Option<Window>)
    requires WellFormedAnchor(a) && a.pre == []
    ensures r.Some? ==> r.value.lo == Floor(a)
    ensures r.None? <==> op == Tilde && a.patch.None?
  {
    match op
    case Caret => Some(Window(Floor(a), None))
    case Tilde =>
      if a.patch.None? then None
      else Some(Window(Floor(a), Some(Inc(Floor(a), Major))))
  }

  /** The window the package builds for `^anchor` (compatible within the leading
      non-zero component) with pre-releases excluded. */
  function CaretWindow(a: Anchor): Window
    requires WellFormedAnchor(a)
  {
    if a.minor.None? then Window(Floor(a), Some(Below(a.major + 1, 0, 0)))
    else if a.patch.None? then
      if a.major == 0 then Window(Floor(a), Some(Below(0, a.minor.value + 1, 0)))
      else Window(Floor(a), Some(Below(a.major + 1, 0, 0)))
    else if a.major == 0 then
      if a.minor.value == 0 then Window(Floor(a), Some(Below(0, 0, a.patch.value + 1)))
      else Window(Floor(a), Some(Below(0, a.minor.value + 1, 0)))
    else Window(Floor(a), Some(Below(a.major + 1, 0, 0)))
  }

  /** The window the package builds for `~anchor` (compatible within the minor version,
      or within the major version when only `X` is given). */
  function TildeWindow(a: Anchor): Window
    requires WellFormedAnchor(a)
  {
    if a.minor.None? then Window(Floor(a), Some(Below(a.major + 1, 0, 0)))
    else Window(Floor(a), Some(Below(a.major, a.minor.value + 1, 0)))
  }

  function Strict(op: Op, a: Anchor): (w: Window)
    requires WellFormedAnchor(a)
    ensures w.lo == Floor(a)
  {
    match op
    case Caret => CaretWindow(a)
    case Tilde => TildeWindow(a)
  }

  /** The window for `op anchor`, strict or relaxed; `None` where the range library would
      be handed a range this model does not cover. */
  function WindowFor(op: Op, a: Anchor, strict: bool): (r: Option<Window>)
    requires WellFormedAnchor(a)
    requires !strict ==> a.pre == []
    ensures r.Some? ==> r.value.lo == Floor(a)
    ensures r.None? <==> !strict && op == Tilde && a.patch.None?
  {
    if strict then Some(Strict(op, a)) else Relaxed(op, a)
  }

  /** `X.Y.Z-0` lies below every other pre-release of `X.Y.Z`. */
  lemma PreBelowZero(p: seq<Ident>)
    requires p != []
    ensures ComparePre(p, [Num(0)]) >= 0
  {
    var z: seq<Ident> := [Num(0)];
    assert z[1..] == [];
    if CompareIdent(p[0], Num(0)) == 0 {
      assert CompareIdents(p, z) == CompareIdents(p[1..], z[1..]);
    }
  }

  /** Triples in lexicographic order. */
  predicate TripleLess(a: Version, major: nat, minor: nat, patch: nat) {
    || a.major < major
    || (a.major == major && a.minor < minor)
    || (a.major == major && a.minor == minor && a.patch < patch)
  }

  /** Below `X.Y.Z-0` lie exactly the versions whose `X.Y.Z` is smaller. */
  lemma LtBelow(v: Version, major: nat, minor: nat, patch: nat)
    ensures Lt(v, Below(major, minor, patch)) <==> TripleLess(v, major, minor, patch)
  {
    if v.major == major && v.minor == minor && v.patch == patch && v.pre != [] {
      PreBelowZero(v.pre);
    }
  }

  /** At or above a version means at or above its triple. */
  lemma LeTriple(lo: Version, v: Version)
    requires Le(lo, v)
    ensures !TripleLess(v, lo.major, lo.minor, lo.patch)
  {
  }

  /** No window of either mode lets a pre-release in when the anchor is stable. */
  lemma StableAnchorStableResult(op: Op, a: Anchor, strict: bool, v: Version)
    requires WellFormedAnchor(a) && a.pre == []
    requires WindowFor(op, a, strict).Some?
    requires Test(WindowFor(op, a, strict).value, v, false)
    ensures IsStable(v)
  {
    var w := WindowFor(op, a, strict).value;
    if !IsStable(v) {
      assert w.hi.Some? && SameTriple(v, w.hi.value);
      LtBelow(v, v.major, v.minor, v.patch);
      assert false;
    }
  }

  /** Every accepted version is at least the anchor. */
  lemma NeverBelowAnchor(op: Op, a: Anchor, strict: bool, v: Version)
    requires WellFormedAnchor(a) && (!strict ==> a.pre == [])
    requires WindowFor(op, a, strict).Some?
    requires Test(WindowFor(op, a, strict).value, v, false)
    ensures Le(Floor(a), v)
  {
  }

  /** A relaxed tilde stays within the anchor's major version. */
  lemma RelaxedTildeKeepsMajor(a: Anchor, v: Version)
    requires WellFormedAnchor(a) && a.pre == [] && a.patch.Some?
    requires Test(Relaxed(Tilde, a).value, v, false)
    ensures v.major == a.major
  {
  }

  /** A strict caret keeps the leading non-zero component (and every component before it). */
  lemma StrictCaretKeepsLeading(a: Anchor, v: Version)
    requires WellFormedAnchor(a)
    requires Test(CaretWindow(a), v, false)
    ensures v.major == a.major
    ensures a.major == 0 && a.minor.Some? ==> v.minor == a.minor.value
    ensures a.major == 0 && a.minor == Some(0) && a.patch.Some? ==> v.patch == a.patch.value
  {
    var w := CaretWindow(a);
    LeTriple(w.lo, v);
    var hi := w.hi.value;
    LtBelow(v, hi.major, hi.minor, hi.patch);
  }

  /** A strict tilde keeps the major version, and the minor version when one is given. */
  lemma StrictTildeKeepsMinor(a: Anchor, v: Version)
    requires WellFormedAnchor(a)
    requires Test(TildeWindow(a), v, false)
    ensures v.major == a.major
    ensures a.minor.Some? ==> v.minor == a.minor.value
  {
    var w := TildeWindow(a);
    LeTriple(w.lo, v);
    var hi := w.hi.value;
    LtBelow(v, hi.major, hi.minor, hi.patch);
  }

  /** A pre-release anchor admits pre-releases only of its own `X.Y.Z`. */
  lemma PrereleaseStaysOnTrack(op: Op, a: Anchor, v: Version)
    requires WellFormedAnchor(a) && a.pre != []
    requires Test(Strict(op, a), v, false) && !IsStable(v)
    ensures SameTriple(v, Floor(a))
  {
    var w := Strict(op, a);
    var hi := w.hi.value;
    LtBelow(v, hi.major, hi.minor, hi.patch);
  }

  // ---------------------------------------------------------------------------
  // The recogniser
  // ---------------------------------------------------------------------------

  /** A pre-release tag of the form `-(alpha|beta|rc)[.-]\d+`. */
  datatype Tag = Tag(word: string, sep: char, digits: string)

  /** Where the recogniser found things: `s[..opAt]` is white space, `s[opAt]` the
      operator, `s[anchorAt..anchorEnd]` the numeric anchor, then an optional tag
      ending at `end`. */
  datatype Scanned = Scanned(op: Op, opAt: nat, anchorAt: nat, parts: seq<string>,
                             anchorEnd: nat, tag: Option<Tag>, end: nat)

  function TagWordAt(s: string, k: nat): (r: Option<string>)
    requires k <= |s|
    ensures r.Some? ==> k + |r.value| <= |s| && s[k..k + |r.value|] == r.value
    ensures r.Some? ==> r.value in ["alpha", "beta", "rc"]
  {
    if k + 5 <= |s| && s[k..k + 5] == "alpha" then Some("alpha")
    else if k + 4 <= |s| && s[k..k + 4] == "beta" then Some("beta")
    else if k + 2 <= |s| && s[k..k + 2] == "rc" then Some("rc")
    else None
  }

  /** The tag that starts at `k`, and where it ends. */
  function TagAt(s: string, k: nat): (r: Option<(Tag, nat)>)
    requires k <= |s|
    ensures r.Some? ==> k < r.value.1 <= |s| && s[k] == '-'
    ensures r.Some? ==> |r.value.0.digits| > 0 && AllDigits(r.value.0.digits)
    ensures r.Some? ==> r.value.0.sep == '.' || r.value.0.sep == '-'
    ensures r.Some? ==> r.value.0.word in ["alpha", "beta", "rc"]
  {
    if k < |s| && s[k] == '-' then
      match TagWordAt(s, k + 1)
      case None => None
      case Some(word) =>
        var at := k + 1 + |word|;
        if at < |s| && (s[at] == '.' || s[at] == '-') then
          var e := DigitsEnd(s, at + 1);
          if e == at + 1 then None
          else Some((Tag(word, s[at], s[at + 1..e]), e))
        else None
    else None
  }

  lemma SliceDigits(s: string, i: nat, j: nat)
    requires i <= j <= |s|
    requires forall k :: i <= k < j ==> IsDigit(s[k])
    ensures AllDigits(s[i..j])
  {
    assert forall m :: 0 <= m < j - i ==> s[i..j][m] == s[i + m];
  }

  lemma SliceSpaces(s: string, i: nat, j: nat)
    requires i <= j <= |s|
    requires forall k :: i <= k < j ==> IsSpace(s[k])
    ensures AllSpace(s[i..j])
  {
    assert forall m :: 0 <= m < j - i ==> s[i..j][m] == s[i + m];
  }

  /** One more `.digits` part after position `k`, if there is one. */
  function DotPart(s: string, k: nat): (r: Option<nat>)
    requires k <= |s|
    ensures r.Some? ==> k + 1 < r.value <= |s| && s[k] == '.'
    ensures r.Some? ==> AllDigits(s[k + 1..r.value])
  {
    if k + 1 < |s| && s[k] == '.' && IsDigit(s[k + 1]) then
      var e := DigitsEnd(s, k + 1);
      SliceDigits(s, k + 1, e);
      Some(e)
    else None
  }

  /** The numeric anchor `\d+(\.\d+(\.\d+)?)?` starting at `j`, taken greedily. */
  function AnchorParts(s: string, j: nat): (r: (seq<string>, nat))
    requires j < |s| && IsDigit(s[j])
    ensures j < r.1 <= |s|
    ensures 1 <= |r.0| <= 3
    ensures forall k :: 0 <= k < |r.0| ==> |r.0[k]| > 0 && AllDigits(r.0[k])
    ensures Join(r.0, '.') == s[j..r.1]
  {
    var e1 := DigitsEnd(s, j);
    var p1 := s[j..e1];
    SliceDigits(s, j, e1);
    match DotPart(s, e1)
    case None => ([p1], e1)
    case Some(e2) =>
      var p2 := s[e1 + 1..e2];
      DottedSlice(s, j, e1, e2);
      JoinOne(p2);
      match DotPart(s, e2)
      case None =>
        JoinCons(p1, [p2]);
        ([p1, p2], e2)
      case Some(e3) =>
        var p3 := s[e2 + 1..e3];
        DottedSlice(s, j, e2, e3);
        JoinOne(p3);
        JoinCons(p2, [p3]);
        JoinCons(p1, [p2, p3]);
        ([p1, p2, p3], e3)
  }

  /** A slice split at a dot. */
  lemma DottedSlice(s: string, j: nat, e: nat, k: nat)
    requires j <= e < k <= |s| && s[e] == '.'
    ensures s[j..k] == s[j..e] + "." + s[e + 1..k]
  {
  }

  lemma JoinOne(p: string)
    ensures Join([p], '.') == p
  {
  }

  lemma JoinCons(p: string, rest: seq<string>)
    requires |rest| > 0
    ensures Join([p] + rest, '.') == p + "." + Join(rest, '.')
  {
    assert ([p] + rest)[1..] == rest;
  }

  /** The regular expression `^\s*([~^])\s*(\d+(\.\d+(\.\d+)?)?)(-(alpha|beta|rc)[.-]\d+)?`
      matched greedily; nothing is required after the match. */
  function Scan(s: string): (r: Option<Scanned>)
    ensures r.Some? ==> r.value.opAt < r.value.anchorAt < r.value.anchorEnd <= r.value.end <= |s|
    ensures r.Some? ==> AllSpace(s[..r.value.opAt]) && s[r.value.opAt] == OpChar(r.value.op)
    ensures r.Some? ==> AllSpace(s[r.value.opAt + 1..r.value.anchorAt])
    ensures r.Some? ==> 1 <= |r.value.parts| <= 3
    ensures r.Some? ==> forall k :: 0 <= k < |r.value.parts| ==>
                          |r.value.parts[k]| > 0 && AllDigits(r.value.parts[k])
    ensures r.Some? ==> Join(r.value.parts, '.') == s[r.value.anchorAt..r.value.anchorEnd]
    ensures r.Some? && r.value.tag.None? ==> r.value.end == r.value.anchorEnd
    ensures r.Some? && r.value.tag.Some? ==> r.value.anchorEnd < |s| && s[r.value.anchorEnd] == '-'
  {
    var i := SkipSpaces(s, 0);
    if i == |s| || (s[i] != '^' && s[i] != '~') then None
    else
      var op := if s[i] == '^' then Caret else Tilde;
      var j := SkipSpaces(s, i + 1);
      if j == |s| || !IsDigit(s[j]) then None
      else
        var (parts, ae) := AnchorParts(s, j);
        SliceSpaces(s, 0, i);
        SliceSpaces(s, i + 1, j);
        match TagAt(s, ae)
        case None => Some(Scanned(op, i, j, parts, ae, None, ae))
        case Some((tag, te)) => Some(Scanned(op, i, j, parts, ae, Some(tag), te))
  }

  /** What it takes for the regular expression to match at all: white space, an
      operator, white space, and a digit. */
  predicate Matches(s: string) {
    exists a, b :: && 0 <= a < b < |s|
                   && (forall k :: 0 <= k < a ==> IsSpace(s[k]))
                   && (s[a] == '^' || s[a] == '~')
                   && (forall k :: a < k < b ==> IsSpace(s[k]))
                   && IsDigit(s[b])
  }

  /** The recogniser succeeds exactly on the strings the regular expression matches. */
  lemma ScanIffMatches(s: string)
    ensures Scan(s).Some? <==> Matches(s)
  {
    if Scan(s).Some? {
      ScanMatches(s);
    }
    if Matches(s) {
      MatchesScanSome(s);
    }
  }

  lemma MatchesScanSome(s: string)
    requires Matches(s)
    ensures Scan(s).Some?
  {
    var a, b :| && 0 <= a < b < |s|
                && (forall k :: 0 <= k < a ==> IsSpace(s[k]))
                && (s[a] == '^' || s[a] == '~')
                && (forall k :: a < k < b ==> IsSpace(s[k]))
                && IsDigit(s[b]);
    MatchesScan(s, a, b);
  }

  lemma ScanMatches(s: string)
    requires Scan(s).Some?
    ensures Matches(s)
  {
    var a := SkipSpaces(s, 0);
    var b := SkipSpaces(s, a + 1);
    assert a < b < |s| && IsDigit(s[b]) && (s[a] == '^' || s[a] == '~');
  }

  lemma MatchesScan(s: string, a: nat, b: nat)
    requires a < b < |s|
    requires forall k :: 0 <= k < a ==> IsSpace(s[k])
    requires s[a] == '^' || s[a] == '~'
    requires forall k :: a < k < b ==> IsSpace(s[k])
    requires IsDigit(s[b])
    ensures Scan(s).Some?
  {
    SkipSpacesStops(s, 0, a);
    SkipSpacesStops(s, a + 1, b);
  }

  lemma SkipSpacesStops(s: string, i: nat, a: nat)
    requires i <= a < |s|
    requires forall k :: i <= k < a ==> IsSpace(s[k])
    requires !IsSpace(s[a])
    ensures SkipSpaces(s, i) == a
  {
  }
}
