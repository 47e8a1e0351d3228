/**
 The two older single-file implementations of the tool (`src/index.ts` and
 `index.js`). They share the version kernel with the current updater but use a
 recogniser that wants nothing after the anchor, a catalog memoised per package
 name that keeps deprecated versions, no workspace packages, and a loop over
 every top-level property of a package file whose name ends in `dependencies`.
 The two differ only in when the package's own version is bumped.
 */
module Legacy {
  import opened Wrappers
  import opened Text
  import opened Semver
  import opened Ranges
  import opened Catalog
  import opened Resolver
  import opened Sorting

  /** Which of the two implementations: `src/index.ts` or `index.js`. */
  datatype Variant = IndexTs | IndexJs

  datatype Options = Options(bump: Option<Level>, strict: bool)

  /** Why processing stopped: the range library would be handed a range this model
      does not cover, or the package document could not be fetched. */
  datatype Error =
    | UnsupportedRange(name: string, declared: string)
    | FetchFailed(name: string, reason: FetchError)

  // ---------------------------------------------------------------------------
  // The recogniser
  // ---------------------------------------------------------------------------

  /** `^\s*([~^])\s*(\d+(\.\d+(\.\d+)?)?)\s*$`: the shared recogniser, with only white
      space allowed after the anchor. */
  function ScanExact(s: string): (r: Option<Scanned>)
    ensures r.Some? ==> Scan(s) == r && r.value.tag.None? && AllSpace(s[r.value.anchorEnd..])
    ensures r.None? && Scan(s).Some? ==> !AllSpace(s[Scan(s).value.anchorEnd..])
  {
    match Scan(s)
    case None => None
    case Some(sc) =>
      TagIsNotSpace(s, sc);
      if AllSpace(s[sc.anchorEnd..]) then Some(sc) else None
  }

  /** A tag starts with `-`, so white space alone never follows an anchor with a tag. */
  lemma TagIsNotSpace(s: string, sc: Scanned)
    requires Scan(s) == Some(sc)
    ensures AllSpace(s[sc.anchorEnd..]) ==> sc.tag.None?
  {
    if sc.tag.Some? {
      assert s[sc.anchorEnd..][0] == '-';
    }
  }

  /** The strings of the exact form, put together from their pieces. */
  function Exact(ws1: string, op: Op, ws2: string, parts: seq<string>, ws3: string): string
    requires |parts| > 0
  {
    ws1 + [OpChar(op)] + ws2 + Join(parts, '.') + ws3
  }

  /** White space, one to three runs of digits, white space. */
  predicate Pieces(ws1: string, ws2: string, parts: seq<string>, ws3: string) {
    && AllSpace(ws1) && AllSpace(ws2) && AllSpace(ws3)
    && 1 <= |parts| <= 3
    && forall k :: 0 <= k < |parts| ==> |parts[k]| > 0 && AllDigits(parts[k])
  }

  /** What the recogniser accepts is a string of the exact form, and it reports the
      operator and the anchor parts of that form. */
  lemma ExactSound(s: string)
    requires ScanExact(s).Some?
    ensures var sc := ScanExact(s).value;
            var ws1, ws2, ws3 := s[..sc.opAt], s[sc.opAt + 1..sc.anchorAt], s[sc.anchorEnd..];
            Pieces(ws1, ws2, sc.parts, ws3) && s == Exact(ws1, sc.op, ws2, sc.parts, ws3)
  {
    var sc := ScanExact(s).value;
    assert Scan(s) == Some(sc);
    SplitFive(s, sc.opAt, sc.anchorAt, sc.anchorEnd);
  }

  /** A string cut at an operator position and two later positions. */
  lemma SplitFive(s: string, a: nat, b: nat, c: nat)
    requires a < b <= c <= |s|
    ensures s == s[..a] + [s[a]] + s[a + 1..b] + s[b..c] + s[c..]
  {
    assert s[..a] + [s[a]] + s[a + 1..b] == s[..b];
    assert s[..b] + s[b..c] == s[..c];
  }

  /** Every string of the exact form is accepted, with its own operator and parts. */
  lemma ExactComplete(ws1: string, op: Op, ws2: string, parts: seq<string>, ws3: string)
    requires Pieces(ws1, ws2, parts, ws3)
    ensures var r := ScanExact(Exact(ws1, op, ws2, parts, ws3));
            r.Some? && r.value.op == op && r.value.parts == parts
  {
    var j := Join(parts, '.');
    JoinShape(parts);
    var s := ExactLayout(ws1, OpChar(op), ws2, j, ws3);
    var b := |ws1| + 1 + |ws2|;
    if |ws3| > 0 {
      assert s[b + |j|] == ws3[0];
    }
    AnchorPartsOf(s, b, parts);
    ScanLaidOut(s, |ws1|, b, op, parts);
  }

  /** Where the pieces of an exact-form string sit. */
  lemma ExactLayout(ws1: string, c: char, ws2: string, j: string, ws3: string) returns (s: string)
    ensures s == ws1 + [c] + ws2 + j + ws3
    ensures forall k :: 0 <= k < |ws1| ==> s[k] == ws1[k]
    ensures s[|ws1|] == c
    ensures forall k :: |ws1| < k < |ws1| + 1 + |ws2| ==> s[k] == ws2[k - |ws1| - 1]
    ensures s[|ws1| + 1 + |ws2|..|ws1| + 1 + |ws2| + |j|] == j
    ensures s[|ws1| + 1 + |ws2| + |j|..] == ws3
  {
    s := ws1 + [c] + ws2 + j + ws3;
  }

  /** The recogniser on a string laid out as white space, operator, white space, an
      anchor and nothing but white space. */
  lemma ScanLaidOut(s: string, a: nat, b: nat, op: Op, parts: seq<string>)
    requires a < b < |s|
    requires forall k :: 0 <= k < a ==> IsSpace(s[k])
    requires s[a] == OpChar(op)
    requires forall k :: a < k < b ==> IsSpace(s[k])
    requires IsDigit(s[b])
    requires 1 <= |parts| && AnchorParts(s, b).0 == parts && AllSpace(s[AnchorParts(s, b).1..])
    ensures ScanExact(s).Some? && ScanExact(s).value.op == op && ScanExact(s).value.parts == parts
  {
    ScanFinds(s, a, b, op);
    var sc := Scan(s).value;
    assert ScanExact(s) == Some(sc);
  }

  /** The recogniser finds the operator at `a` and the anchor at `b`. */
  lemma ScanFinds(s: string, a: nat, b: nat, op: Op)
    requires a < b < |s|
    requires forall k :: 0 <= k < a ==> IsSpace(s[k])
    requires s[a] == OpChar(op)
    requires forall k :: a < k < b ==> IsSpace(s[k])
    requires IsDigit(s[b])
    ensures Scan(s).Some? && Scan(s).value.op == op
    ensures Scan(s).value.parts == AnchorParts(s, b).0 && Scan(s).value.anchorEnd == AnchorParts(s, b).1
  {
    SkipSpacesStops(s, 0, a);
    SkipSpacesStops(s, a + 1, b);
  }

  /** A joined anchor starts with a digit and has the length of its pieces. */
  lemma JoinShape(parts: seq<string>)
    requires 1 <= |parts| <= 3
    requires forall k :: 0 <= k < |parts| ==> |parts[k]| > 0 && AllDigits(parts[k])
    ensures |Join(parts, '.')| > 0 && Join(parts, '.')[0] == parts[0][0] && IsDigit(parts[0][0])
  {
    if |parts| > 1 {
      assert Join(parts, '.') == parts[0] + "." + Join(parts[1..], '.');
    }
  }

  /** A run of digits that the string holds at `i`, followed by a non-digit. */
  lemma {:induction false} RunEnds(s: string, i: nat, p: string)
    requires i + |p| <= |s| && s[i..i + |p|] == p && AllDigits(p)
    requires i + |p| == |s| || !IsDigit(s[i + |p|])
    ensures DigitsEnd(s, i) == i + |p|
    decreases |p|
  {
    if |p| > 0 {
      assert s[i] == p[0];
      assert s[i + 1..i + |p|] == p[1..];
      RunEnds(s, i + 1, p[1..]);
    }
  }

  /** The anchor parser reads back the parts of a joined anchor that white space (or the
      end of the string) follows. */
  lemma AnchorPartsOf(s: string, b: nat, parts: seq<string>)
    requires 1 <= |parts| <= 3
    requires forall k :: 0 <= k < |parts| ==> |parts[k]| > 0 && AllDigits(parts[k])
    requires b + |Join(parts, '.')| <= |s| && s[b..b + |Join(parts, '.')|] == Join(parts, '.')
    requires b + |Join(parts, '.')| == |s| || IsSpace(s[b + |Join(parts, '.')|])
    ensures b < |s| && IsDigit(s[b])
    ensures AnchorParts(s, b) == (parts, b + |Join(parts, '.')|)
  {
    JoinPieces(parts);
    if |parts| == 1 {
      AnchorOne(s, b, parts[0]);
    } else if |parts| == 2 {
      JoinedTwo(s, b, parts[0], parts[1]);
    } else {
      JoinedThree(s, b, parts[0], parts[1], parts[2]);
    }
  }

  /** A joined anchor of one, two or three parts, written out. */
  lemma JoinPieces(parts: seq<string>)
    requires 1 <= |parts| <= 3
    ensures |parts| == 1 ==> parts == [parts[0]] && Join(parts, '.') == parts[0]
    ensures |parts| == 2 ==> parts == [parts[0], parts[1]] && Join(parts, '.') == parts[0] + "." + parts[1]
    ensures |parts| == 3 ==> parts == [parts[0], parts[1], parts[2]]
                             && Join(parts, '.') == parts[0] + "." + parts[1] + "." + parts[2]
  {
    if |parts| == 2 {
      assert parts[1..] == [parts[1]];
    } else if |parts| == 3 {
      assert parts[1..] == [parts[1], parts[2]];
      assert parts[1..][1..] == [parts[2]];
    }
  }

  lemma JoinedTwo(s: string, b: nat, p1: string, p2: string)
    requires |p1| > 0 && AllDigits(p1) && |p2| > 0 && AllDigits(p2)
    requires b + |p1 + "." + p2| <= |s| && s[b..b + |p1 + "." + p2|] == p1 + "." + p2
    requires EndsThere(s, b + |p1 + "." + p2|)
    ensures b < |s| && IsDigit(s[b])
    ensures AnchorParts(s, b) == ([p1, p2], b + |p1 + "." + p2|)
  {
    var t := p1 + "." + p2;
    var e := b + |t|;
    SubSlice(s, b, e, t, 0, |p1|);
    SubSlice(s, b, e, t, |p1|, |p1| + 1);
    SubSlice(s, b, e, t, |p1| + 1, |t|);
    assert t[..|p1|] == p1 && t[|p1|] == '.' && t[|p1| + 1..] == p2;
    AnchorTwo(s, b, p1, p2);
  }

  lemma JoinedThree(s: string, b: nat, p1: string, p2: string, p3: string)
    requires |p1| > 0 && AllDigits(p1) && |p2| > 0 && AllDigits(p2) && |p3| > 0 && AllDigits(p3)
    requires b + |p1 + "." + p2 + "." + p3| <= |s|
    requires s[b..b + |p1 + "." + p2 + "." + p3|] == p1 + "." + p2 + "." + p3
    requires EndsThere(s, b + |p1 + "." + p2 + "." + p3|)
    ensures b < |s| && IsDigit(s[b])
    ensures AnchorParts(s, b) == ([p1, p2, p3], b + |p1 + "." + p2 + "." + p3|)
  {
    SliceThree(s, b, p1, p2, p3);
    AnchorThree(s, b, p1, p2, p3);
  }

  /** The slices of `s` under each piece of `p1.p2.p3` written at `b`. */
  lemma SliceThree(s: string, b: nat, p1: string, p2: string, p3: string)
    requires b + |p1 + "." + p2 + "." + p3| <= |s|
    requires s[b..b + |p1 + "." + p2 + "." + p3|] == p1 + "." + p2 + "." + p3
    ensures |p1 + "." + p2 + "." + p3| == |p1| + 2 + |p2| + |p3|
    ensures s[b..b + |p1|] == p1 && s[b + |p1|] == '.'
    ensures s[b + |p1| + 1..b + |p1| + 1 + |p2|] == p2 && s[b + |p1| + 1 + |p2|] == '.'
    ensures s[b + |p1| + 2 + |p2|..b + |p1| + 2 + |p2| + |p3|] == p3
  {
    var t := p1 + "." + p2 + "." + p3;
    var e := b + |t|;
    var m := |p1| + 1 + |p2|;
    ThreeLaidOut(p1, p2, p3);
    SubSlice(s, b, e, t, 0, |p1|);
    SubSlice(s, b, e, t, |p1|, |p1| + 1);
    SubSlice(s, b, e, t, |p1| + 1, m);
    SubSlice(s, b, e, t, m, m + 1);
    SubSlice(s, b, e, t, m + 1, |t|);
  }

  /** Where the pieces of `p1.p2.p3` sit. */
  lemma ThreeLaidOut(p1: string, p2: string, p3: string)
    ensures var t, m := p1 + "." + p2 + "." + p3, |p1| + 1 + |p2|;
            && |t| == m + 1 + |p3|
            && t[..|p1|] == p1 && t[|p1|] == '.' && t[|p1| + 1..m] == p2
            && t[m] == '.' && t[m + 1..] == p3
  {
  }

  lemma SubSlice(s: string, b: nat, e: nat, t: string, x: nat, y: nat)
    requires b <= e <= |s| && s[b..e] == t && x <= y <= |t|
    ensures b + y <= e && s[b + x..b + y] == t[x..y]
    ensures x < |t| ==> s[b + x] == t[x]
  {
    assert forall k :: x <= k < y ==> s[b + k] == t[k];
  }

  /** Where a string of digits ends and white space (or the end) follows. */
  predicate EndsThere(s: string, e: nat) {
    e <= |s| && (e == |s| || IsSpace(s[e]))
  }

  /** No further `.digits` part where white space or the end follows. */
  lemma NoDotPart(s: string, e: nat)
    requires EndsThere(s, e)
    ensures DotPart(s, e).None?
  {
  }

  /** One more `.digits` part `p` at `k`, and it ends where `p` does. */
  lemma DotPartAt(s: string, k: nat, p: string)
    requires |p| > 0 && AllDigits(p)
    requires k + 1 + |p| <= |s| && s[k] == '.' && s[k + 1..k + 1 + |p|] == p
    requires k + 1 + |p| == |s| || !IsDigit(s[k + 1 + |p|])
    ensures DotPart(s, k) == Some(k + 1 + |p|)
  {
    assert s[k + 1] == p[0];
    RunEnds(s, k + 1, p);
  }

  lemma AnchorOne(s: string, b: nat, p1: string)
    requires |p1| > 0 && AllDigits(p1)
    requires b + |p1| <= |s| && s[b..b + |p1|] == p1 && EndsThere(s, b + |p1|)
    ensures b < |s| && IsDigit(s[b])
    ensures AnchorParts(s, b) == ([p1], b + |p1|)
  {
    assert s[b] == p1[0];
    RunEnds(s, b, p1);
    NoDotPart(s, b + |p1|);
  }

  lemma AnchorTwo(s: string, b: nat, p1: string, p2: string)
    requires |p1| > 0 && AllDigits(p1) && |p2| > 0 && AllDigits(p2)
    requires b + |p1| + 1 + |p2| <= |s|
    requires s[b..b + |p1|] == p1 && s[b + |p1|] == '.'
    requires s[b + |p1| + 1..b + |p1| + 1 + |p2|] == p2
    requires EndsThere(s, b + |p1| + 1 + |p2|)
    ensures b < |s| && IsDigit(s[b])
    ensures AnchorParts(s, b) == ([p1, p2], b + |p1| + 1 + |p2|)
  {
    assert s[b] == p1[0];
    RunEnds(s, b, p1);
    DotPartAt(s, b + |p1|, p2);
    NoDotPart(s, b + |p1| + 1 + |p2|);
  }

  lemma AnchorThree(s: string, b: nat, p1: string, p2: string, p3: string)
    requires |p1| > 0 && AllDigits(p1) && |p2| > 0 && AllDigits(p2) && |p3| > 0 && AllDigits(p3)
    requires b + |p1| + 2 + |p2| + |p3| <= |s|
    requires s[b..b + |p1|] == p1 && s[b + |p1|] == '.'
    requires s[b + |p1| + 1..b + |p1| + 1 + |p2|] == p2 && s[b + |p1| + 1 + |p2|] == '.'
    requires s[b + |p1| + 2 + |p2|..b + |p1| + 2 + |p2| + |p3|] == p3
    requires EndsThere(s, b + |p1| + 2 + |p2| + |p3|)
    ensures b < |s| && IsDigit(s[b])
    ensures AnchorParts(s, b) == ([p1, p2, p3], b + |p1| + 2 + |p2| + |p3|)
  {
    var e1 := b + |p1|;
    var e2 := e1 + 1 + |p2|;
    var e3 := e2 + 1 + |p3|;
    assert s[b] == p1[0];
    RunEnds(s, b, p1);
    DotPartAt(s, e1, p2);
    assert e3 == |s| || !IsDigit(s[e3]);
    DotPartAt(s, e2, p3);
    assert AnchorParts(s, b) == ([s[b..e1], s[e1 + 1..e2], s[e2 + 1..e3]], e3);
  }

  // ---------------------------------------------------------------------------
  // The resolver
  // ---------------------------------------------------------------------------

  /** The plan of `updateDependency`: a string outside the exact form is kept as
      declared; otherwise the shared kernel builds the window (`>=anchor`, with
      `<inc(anchor, major)` for a tilde, or the range itself in strict mode). */
  function LegacyPlan(s: string, strict: bool): (p: Plan)
    ensures p == Verbatim <==> ScanExact(s).None?
    ensures p.Query? ==> p.fallback == Fallback(ScanExact(s).value)
  {
    match ScanExact(s)
    case None => Verbatim
    case Some(sc) => QueryFor(s, sc, strict)
  }

  /** `updateDependency` once the catalog is known: the string itself when it is not of
      the exact form, else what the current resolver gives a package outside the
      workspace; `None` for a range outside the model. */
  function LegacyResolve(s: string, strict: bool, versions: seq<string>): (r: Option<string>)
    ensures ScanExact(s).None? ==> r == Some(s)
    ensures ScanExact(s).Some? ==> r == Resolve(false, s, strict, versions)
  {
    match LegacyPlan(s, strict)
    case Verbatim => Some(s)
    case Unsupported => None
    case Query(op, fallback, w) => Some(Finish(op, fallback, w, versions))
  }

  /** Text after the anchor (a tag, a second comparator, a `|| ...`) keeps the range
      as declared, where the current resolver in relaxed mode rewrites it. */
  lemma TrailingTextKept(s: string, strict: bool, versions: seq<string>)
    requires Scan(s).Some? && !AllSpace(s[Scan(s).value.anchorEnd..])
    ensures LegacyResolve(s, strict, versions) == Some(s)
    ensures var sc := Scan(s).value;
            ParseAnchor(sc.parts).Some? && Relaxed(sc.op, ParseAnchor(sc.parts).value).Some? ==>
              PlanFor(false, s, false).Query?
  {
  }

  /** With a sorted catalog the result is the operator and the greatest version the
      window accepts. */
  lemma LegacyResultIsGreatest(s: string, strict: bool, versions: seq<string>, k: nat)
    requires SortedDescending(versions)
    requires LegacyPlan(s, strict).Query?
    requires k < |versions| && TestText(LegacyPlan(s, strict).window, versions[k], false)
    ensures var p := LegacyPlan(s, strict);
            exists f :: && 0 <= f < |versions|
                        && LegacyResolve(s, strict, versions) == Some([OpChar(p.op)] + versions[f])
                        && TestText(p.window, versions[f], false)
                        && Le(Parse(versions[k]).value, Parse(versions[f]).value)
  {
    assert LegacyPlan(s, strict) == PlanFor(false, s, strict);
    ResultIsGreatest(s, strict, versions, k);
  }

  /** In relaxed mode a resolved version is stable, never below the anchor, and for a
      tilde within the anchor's major version. */
  lemma LegacyRelaxedBounds(s: string, versions: seq<string>, f: nat)
    requires LegacyPlan(s, false).Query?
    requires f < |versions|
    requires LegacyResolve(s, false, versions) == Some([OpChar(LegacyPlan(s, false).op)] + versions[f])
    requires TestText(LegacyPlan(s, false).window, versions[f], false)
    ensures var sc := ScanExact(s).value;
            var a := ParseAnchor(sc.parts).value;
            var v := Parse(versions[f]).value;
            && IsStable(v)
            && Le(Floor(a), v)
            && (sc.op == Tilde ==> v.major == a.major)
  {
    assert LegacyPlan(s, false) == PlanFor(false, s, false);
    RelaxedResultBounds(s, versions, f);
  }

  /** In strict mode a resolved version stays compatible with the declared range. */
  lemma LegacyStrictCompatible(s: string, versions: seq<string>, f: nat)
    requires LegacyPlan(s, true).Query?
    requires f < |versions|
    requires TestText(LegacyPlan(s, true).window, versions[f], false)
    ensures var sc := ScanExact(s).value;
            var a := ParseAnchor(sc.parts).value;
            var v := Parse(versions[f]).value;
            && IsStable(v)
            && Le(Floor(a), v)
            && v.major == a.major
            && (sc.op == Tilde && a.minor.Some? ==> v.minor == a.minor.value)
            && (sc.op == Caret && a.major == 0 && a.minor.Some? ==> v.minor == a.minor.value)
  {
    assert LegacyPlan(s, true) == PlanFor(false, s, true);
    StrictResultCompatible(s, versions, f);
  }

  // ---------------------------------------------------------------------------
  // The catalog
  // ---------------------------------------------------------------------------

  /** `getVersions(name)`: the outcome stored under the bare name, or one fetch of the
      package document (with no registry configuration) whose valid stable versions,
      deprecated or not, are kept newest first. */
  function VersionsOf(c: Cache, fetch: Fetch, name: string): (r: (Cache, Outcome))
    requires Ready(c)
    ensures Ready(r.0) && Grows(c, r.0)
    ensures name in r.0.entries && r.1 == r.0.entries[name]
    ensures name in c.entries ==> r.0 == c
    ensures name !in c.entries ==>
              && r.0.fetched == c.fetched + [name]
              && (r.1.Failure? <==> fetch(name, map[]).Failure?)
              && (r.1.Success? ==> forall v :: v in r.1.value <==>
                    exists k :: && 0 <= k < |fetch(name, map[]).value|
                                && fetch(name, map[]).value[k].version == v
                                && TestText(AnyVersion(), v, false))
    ensures r.1.Success? ==> SortedDescending(r.1.value)
  {
    Memo(c, name, fetch, name, map[], false, false)
  }

  /** The older tools and `VersionsCache` store a package's stable catalog under the
      same key and through the same pipeline, except that the current one drops
      deprecated versions first. Fetched with the same (empty) configuration, a fresh
      read by the current cache holds the older tools' catalog of the entries that are
      not deprecated, and with no deprecated entry the two reads are the same. */
  lemma StableCatalogsAgree(c: Cache, fetch: Fetch, name: string)
    requires Ready(c)
    ensures var f := fetch(name, map[]);
            name !in c.entries && f.Success? ==>
              && VersionsOf(c, fetch, name).1 == Success(Select(f.value, false, false))
              && GetVersions(c, fetch, name, map[], false).1 == Success(Select(Live(f.value), false, false))
    ensures var f := fetch(name, map[]);
            (f.Failure? || forall k :: 0 <= k < |f.value| ==> !f.value[k].deprecated) ==>
              VersionsOf(c, fetch, name) == GetVersions(c, fetch, name, map[], false)
  {
    var f := fetch(name, map[]);
    assert Key(name, false) == name;
    if f.Success? {
      CandidatesLive(f.value, false);
      assert Select(f.value, false, true) == Select(Live(f.value), false, false);
    }
  }

  // ---------------------------------------------------------------------------
  // One dependency
  // ---------------------------------------------------------------------------

  /** What a declared range resolves to once the catalog in `c` is known. `None` when
      the range is outside the model, or the stored fetch failed, or nothing is stored. */
  function Resolution(c: Cache, strict: bool, name: string, declared: string): (r: Option<string>)
    ensures LegacyPlan(declared, strict) == Verbatim ==> r == Some(declared)
    ensures LegacyPlan(declared, strict) == Unsupported ==> r.None?
    ensures LegacyPlan(declared, strict).Query? ==>
              (r.Some? <==> name in c.entries && c.entries[name].Success?)
  {
    match LegacyPlan(declared, strict)
    case Verbatim => Some(declared)
    case Unsupported => None
    case Query(_, _, _) =>
      if name in c.entries && c.entries[name].Success? then
        LegacyResolve(declared, strict, c.entries[name].value)
      else None
  }

  /** Read from a ready cache, a queried range resolves to its best fit against the
      stored stable catalog of the name. */
  lemma ResolutionIsBestFit(c: Cache, strict: bool, name: string, declared: string)
    requires Ready(c)
    requires LegacyPlan(declared, strict).Query?
    requires name in c.entries && c.entries[name].Success?
    ensures Resolution(c, strict, name, declared).Some?
    ensures BestFit(LegacyPlan(declared, strict), c.entries[name].value, Resolution(c, strict, name, declared).value)
  {
    assert LegacyPlan(declared, strict) == PlanFor(false, declared, strict);
    ResolveIsBestFit(declared, strict, c.entries[name].value);
  }

  lemma ResolutionKept(c: Cache, c': Cache, strict: bool, name: string, declared: string)
    requires Grows(c, c') && Resolution(c, strict, name, declared).Some?
    ensures Resolution(c', strict, name, declared) == Resolution(c, strict, name, declared)
  {
  }

  /** `updateDependency(name, from)`: the cache after any fetch and the new range. A
      string outside the exact form, or a range outside the model, is settled without
      a fetch; otherwise the stable catalog of the name is read once. */
  function UpdateDependency(c: Cache, fetch: Fetch, strict: bool, name: string, declared: string)
    : (r: (Cache, Result<string, Error>))
    requires Ready(c)
    ensures Ready(r.0) && Grows(c, r.0)
    ensures !LegacyPlan(declared, strict).Query? ==> r.0 == c
    ensures LegacyPlan(declared, strict).Query? ==> r.0 == VersionsOf(c, fetch, name).0
    ensures r.1.Success? ==> Resolution(r.0, strict, name, declared) == Some(r.1.value)
    ensures r.1.Failure? ==> Resolution(r.0, strict, name, declared).None?
  {
    match LegacyPlan(declared, strict)
    case Verbatim => (c, Success(declared))
    case Unsupported => (c, Failure(UnsupportedRange(name, declared)))
    case Query(_, _, _) =>
      var (c', outcome) := VersionsOf(c, fetch, name);
      match outcome
      case Failure(e) => (c', Failure(FetchFailed(name, e)))
      case Success(versions) => (c', Success(LegacyResolve(declared, strict, versions).value))
  }

  // ---------------------------------------------------------------------------
  // One group
  // ---------------------------------------------------------------------------

  /** The entries of a dependency object, name and declared range, in key order. */
  type Entries = seq<(string, string)>

  function EntryName(e: (string, string)): string {
    e.0
  }

  /** One rewritten dependency, as printed: `kind` is the group label. */
  datatype Change = Change(name: string, from: string, to: string, kind: string)

  /** `[dD]ependencies$` and not `bundled?Dependencies`: the properties the loop rewrites. */
  predicate IsGroupKey(key: string) {
    && (EndsWith(key, "dependencies") || EndsWith(key, "Dependencies"))
    && !Contains(key, "bundleDependencies") && !Contains(key, "bundledDependencies")
  }

  predicate EndsWith(s: string, suffix: string) {
    |suffix| <= |s| && s[|s| - |suffix|..] == suffix
  }

  predicate Contains(s: string, t: string)
    decreases |s|
  {
    |t| <= |s| && (s[..|t|] == t || Contains(s[1..], t))
  }

  /** The label printed after a change: the part of the key before its last twelve
      characters, in brackets after a space; nothing for a key of twelve characters. */
  function Kind(key: string): (r: string)
    ensures IsGroupKey(key) ==> (r == "" <==> |key| == 12)
    ensures r != "" ==> && |key| > 12 && |r| >= 3 && r[..2] == " [" && r[|r| - 1] == ']'
                        && r[2..|r| - 1] + key[|key| - 12..] == key
  {
    if |key| > 12 then " [" + key[..|key| - 12] + "]" else ""
  }

  /** A way to resolve one entry, name and declared range. */
  type Lookup = (string, string) -> Option<string>

  /** `Resolution` against the catalogs in `c`, as a lookup. */
  function ResolutionIn(c: Cache, strict: bool): Lookup {
    (name, declared) => Resolution(c, strict, name, declared)
  }

  /** The resolutions of all entries under their names; `None` when some entry has none. */
  function ResolveEntries(f: Lookup, es: Entries): (r: Option<Entries>)
    ensures r.Some? ==> |r.value| == |es| && forall k :: 0 <= k < |es| ==> r.value[k].0 == es[k].0
    decreases |es|
  {
    if es == [] then Some([])
    else
      match f(es[0].0, es[0].1)
      case None => None
      case Some(to) =>
        match ResolveEntries(f, es[1..])
        case None => None
        case Some(rest) => Some([(es[0].0, to)] + rest)
  }

  /** Entry by entry: the entries resolve when each does, and then each takes its own
      resolution. */
  lemma {:induction false} ResolveEntriesIndexwise(f: Lookup, es: Entries)
    ensures ResolveEntries(f, es).Some? <==> forall k :: 0 <= k < |es| ==> f(es[k].0, es[k].1).Some?
    ensures ResolveEntries(f, es).Some? ==> ResolvesTo(f, es, ResolveEntries(f, es).value)
    decreases |es|
  {
    if es != [] {
      ResolveEntriesIndexwise(f, es[1..]);
      assert forall k :: 1 <= k < |es| ==> es[k] == es[1..][k - 1];
    }
  }

  /** `after` holds the entries of `es` under the same names, each with its resolution. */
  predicate ResolvesTo(f: Lookup, es: Entries, after: Entries) {
    && |after| == |es|
    && forall k :: 0 <= k < |es| ==> after[k].0 == es[k].0 && f(es[k].0, es[k].1) == Some(after[k].1)
  }

  lemma {:induction false} ResolveEntriesKept(c: Cache, c': Cache, strict: bool, es: Entries)
    requires Grows(c, c') && ResolveEntries(ResolutionIn(c, strict), es).Some?
    ensures ResolveEntries(ResolutionIn(c', strict), es) == ResolveEntries(ResolutionIn(c, strict), es)
    decreases |es|
  {
    if es != [] {
      ResolutionKept(c, c', strict, es[0].0, es[0].1);
      ResolveEntriesKept(c, c', strict, es[1..]);
    }
  }

  /** The entries whose range changed, in order, as changes labelled `kind`. */
  function ChangesOf(before: Entries, after: Entries, kind: string): seq<Change>
    requires |before| == |after|
    decreases |before|
  {
    if before == [] then []
    else
      (if before[0].1 != after[0].1 then [Change(before[0].0, before[0].1, after[0].1, kind)] else [])
      + ChangesOf(before[1..], after[1..], kind)
  }

  /** A change is reported exactly for an entry whose range differs after the rewrite. */
  lemma {:induction false} ChangesOfMembership(before: Entries, after: Entries, kind: string, ch: Change)
    requires |before| == |after|
    ensures ch in ChangesOf(before, after, kind) <==>
              exists k :: && 0 <= k < |before| && before[k].1 != after[k].1
                          && ch == Change(before[k].0, before[k].1, after[k].1, kind)
    decreases |before|
  {
    if before != [] {
      ChangesOfMembership(before[1..], after[1..], kind, ch);
      if ch in ChangesOf(before[1..], after[1..], kind) {
        var k :| && 0 <= k < |before[1..]| && before[1..][k].1 != after[1..][k].1
                 && ch == Change(before[1..][k].0, before[1..][k].1, after[1..][k].1, kind);
        assert before[k + 1] == before[1..][k] && after[k + 1] == after[1..][k];
      }
      if exists k :: && 0 <= k < |before| && before[k].1 != after[k].1
                     && ch == Change(before[k].0, before[k].1, after[k].1, kind) {
        var k :| && 0 <= k < |before| && before[k].1 != after[k].1
                 && ch == Change(before[k].0, before[k].1, after[k].1, kind);
        if k > 0 {
          assert before[1..][k - 1] == before[k] && after[1..][k - 1] == after[k];
        }
      }
    }
  }

  /** Every entry keeps its range. */
  predicate Unchanged(before: Entries, after: Entries)
    requires |before| == |after|
  {
    forall k :: 0 <= k < |before| ==> before[k].1 == after[k].1
  }

  /** No change is reported exactly when every entry keeps its range. */
  lemma {:induction false} ChangesOfNone(before: Entries, after: Entries, kind: string)
    requires |before| == |after|
    ensures ChangesOf(before, after, kind) == [] <==> Unchanged(before, after)
    decreases |before|
  {
    if before != [] {
      ChangesOfNone(before[1..], after[1..], kind);
      assert forall k :: 1 <= k < |before| ==> before[k] == before[1..][k - 1] && after[k] == after[1..][k - 1];
    }
  }

  /** The inner loop: each entry in turn through `updateDependency`, threading the
      cache; the rewritten entries and the changes, or the first error. */
  function UpdateEntries(c: Cache, fetch: Fetch, strict: bool, kind: string, es: Entries)
    : (r: (Cache, Result<(Entries, seq<Change>), Error>))
    requires Ready(c)
    ensures Ready(r.0) && Grows(c, r.0)
    ensures r.1.Success? ==> ResolveEntries(ResolutionIn(r.0, strict), es) == Some(r.1.value.0)
    ensures r.1.Success? ==> |r.1.value.0| == |es| && r.1.value.1 == ChangesOf(es, r.1.value.0, kind)
    ensures r.1.Failure? ==> ResolveEntries(ResolutionIn(r.0, strict), es).None?
    decreases |es|
  {
    if es == [] then (c, Success(([], [])))
    else
      var (name, from) := es[0];
      var (c1, head) := UpdateDependency(c, fetch, strict, name, from);
      match head
      case Failure(e) => (c1, Failure(e))
      case Success(to) =>
        var (c2, tail) := UpdateEntries(c1, fetch, strict, kind, es[1..]);
        match tail
        case Failure(e) => (c2, Failure(e))
        case Success((after, changes)) =>
          GrowsTransitive(c, c1, c2);
          EntriesStep(c1, c2, strict, kind, es, to, after, changes);
          var here := if from != to then [Change(name, from, to, kind)] else [];
          (c2, Success(([(name, to)] + after, here + changes)))
  }

  /** One entry of the loop: its resolution, read before the rest of the loop, is
      still its resolution in the final cache. */
  lemma EntriesStep(c1: Cache, c2: Cache, strict: bool, kind: string, es: Entries, to: string,
                    after: Entries, changes: seq<Change>)
    requires es != [] && Grows(c1, c2)
    requires Resolution(c1, strict, es[0].0, es[0].1) == Some(to)
    requires ResolveEntries(ResolutionIn(c2, strict), es[1..]) == Some(after)
    requires |after| == |es| - 1 && changes == ChangesOf(es[1..], after, kind)
    ensures ResolveEntries(ResolutionIn(c2, strict), es) == Some([(es[0].0, to)] + after)
    ensures ChangesOf(es, [(es[0].0, to)] + after, kind)
         == (if es[0].1 != to then [Change(es[0].0, es[0].1, to, kind)] else []) + changes
  {
    ResolutionKept(c1, c2, strict, es[0].0, es[0].1);
    assert ([(es[0].0, to)] + after)[1..] == after;
  }

  // ---------------------------------------------------------------------------
  // One package file
  // ---------------------------------------------------------------------------

  /** The value of a top-level property of a package file, as far as the loop reads
      it: a dependency object, a falsy value, or anything else. */
  datatype Value = Object(entries: Entries) | Falsy | Other

  /** The `version` property: absent, `null`, or a string. */
  datatype Field = Missing | Null | Str(s: string)

  /** A package file: its version, and its other top-level properties in key order. */
  datatype Manifest = Manifest(version: Field, props: seq<(string, Value)>)

  /** The entries the loop reads from a property (`data[type] || {}`). */
  function EntriesOf(v: Value): Entries {
    match v
    case Object(es) => es
    case _ => []
  }

  /** Every property the loop rewrites holds an object or a falsy value. */
  predicate Typed(props: seq<(string, Value)>) {
    forall k :: 0 <= k < |props| ==> IsGroupKey(props[k].0) ==> !props[k].1.Other?
  }

  /** What one property becomes against the catalogs in `c`, and the changes it
      reports: kept when it is not a dependency group; dropped when the group has no
      entries; otherwise its entries in name order, each resolved. */
  function Rewrite(c: Cache, strict: bool, p: (string, Value)): Option<(seq<(string, Value)>, seq<Change>)> {
    if !IsGroupKey(p.0) then Some(([p], []))
    else
      var sorted := SortBy(EntryName, EntriesOf(p.1));
      match ResolveEntries(ResolutionIn(c, strict), sorted)
      case None => None
      case Some(after) =>
        Some((if after == [] then [] else [(p.0, Object(after))], ChangesOf(sorted, after, Kind(p.0))))
  }

  /** Every property rewritten in turn, against the same catalogs. */
  function RewriteAll(c: Cache, strict: bool, props: seq<(string, Value)>)
    : Option<(seq<(string, Value)>, seq<Change>)>
    decreases |props|
  {
    if props == [] then Some(([], []))
    else
      match Rewrite(c, strict, props[0])
      case None => None
      case Some((o, ch)) =>
        match RewriteAll(c, strict, props[1..])
        case None => None
        case Some((out, changes)) => Some((o + out, ch + changes))
  }

  /** A rewritten group: dropped exactly when it is empty, otherwise under the same key
      with the same names, in name order, each taking the resolution of its declared
      range; it reports a change exactly when some range differs. */
  lemma RewriteGroup(c: Cache, strict: bool, p: (string, Value))
    requires IsGroupKey(p.0) && Rewrite(c, strict, p).Some?
    ensures var (o, ch) := Rewrite(c, strict, p).value;
            && (o == [] <==> EntriesOf(p.1) == [])
            && (o != [] ==>
                  && o == [(p.0, o[0].1)] && o[0].1.Object?
                  && SortedBy(EntryName, o[0].1.entries)
                  && |o[0].1.entries| == |EntriesOf(p.1)|
                  && (forall k :: 0 <= k < |o[0].1.entries| ==>
                        ResolvedFrom(ResolutionIn(c, strict), EntriesOf(p.1), o[0].1.entries[k]))
                  && (forall i :: 0 <= i < |EntriesOf(p.1)| ==> Names(o[0].1.entries, EntriesOf(p.1)[i].0)))
            && (ch == [] <==> forall i :: 0 <= i < |EntriesOf(p.1)| ==>
                  ResolutionIn(c, strict)(EntriesOf(p.1)[i].0, EntriesOf(p.1)[i].1) == Some(EntriesOf(p.1)[i].1))
  {
    var es := EntriesOf(p.1);
    var sorted := SortBy(EntryName, es);
    var f := ResolutionIn(c, strict);
    var after := ResolveEntries(f, sorted).value;
    ResolveEntriesIndexwise(f, sorted);
    SortKeepsEntries(es);
    ResolvedSorted(f, sorted, after);
    ResolvedCover(f, es, sorted, after);
    ChangesOfNone(sorted, after, Kind(p.0));
  }

  /** Sorting by name keeps the entries. */
  lemma SortKeepsEntries(es: Entries)
    ensures |SortBy(EntryName, es)| == |es|
    ensures forall e :: e in es <==> e in SortBy(EntryName, es)
  {
    var sorted := SortBy(EntryName, es);
    assert multiset(sorted) == multiset(es);
    assert |multiset(sorted)| == |multiset(es)|;
    forall e
      ensures e in es <==> e in sorted
    {
      assert e in es <==> e in multiset(es);
      assert e in sorted <==> e in multiset(sorted);
    }
  }

  /** Resolving keeps the names, so it keeps the name order. */
  lemma ResolvedSorted(f: Lookup, sorted: Entries, after: Entries)
    requires SortedBy(EntryName, sorted) && ResolvesTo(f, sorted, after)
    ensures SortedBy(EntryName, after)
  {
    forall i, j | 0 <= i < j < |after|
      ensures NotAfter(EntryName(after[i]), EntryName(after[j]))
    {
      assert EntryName(after[i]) == EntryName(sorted[i]);
      assert EntryName(after[j]) == EntryName(sorted[j]);
    }
  }

  /** Some entry of `es` has the name of `x` and resolves to the range of `x`. */
  predicate ResolvedFrom(f: Lookup, es: Entries, x: (string, string)) {
    exists i :: 0 <= i < |es| && es[i].0 == x.0 && f(es[i].0, es[i].1) == Some(x.1)
  }

  /** Some entry of `es` has the name `name`. */
  predicate Names(es: Entries, name: string) {
    exists k :: 0 <= k < |es| && es[k].0 == name
  }

  /** The resolved entries of a reordering of `es` cover `es`, each with its own
      resolution, and report no change exactly when every range resolves to itself. */
  lemma ResolvedCover(f: Lookup, es: Entries, sorted: Entries, after: Entries)
    requires forall e :: e in es <==> e in sorted
    requires ResolvesTo(f, sorted, after)
    ensures forall k :: 0 <= k < |after| ==> ResolvedFrom(f, es, after[k])
    ensures forall i :: 0 <= i < |es| ==> Names(after, es[i].0)
    ensures Unchanged(sorted, after) <==> forall i :: 0 <= i < |es| ==> f(es[i].0, es[i].1) == Some(es[i].1)
  {
    forall k | 0 <= k < |after|
      ensures ResolvedFrom(f, es, after[k])
    {
      assert sorted[k] in sorted;
      var i := IndexIn(es, sorted[k]);
      assert es[i].0 == after[k].0 && f(es[i].0, es[i].1) == Some(after[k].1);
    }
    forall i | 0 <= i < |es|
      ensures Names(after, es[i].0)
    {
      assert es[i] in es;
      var k := IndexIn(sorted, es[i]);
      assert after[k].0 == es[i].0;
    }
    UnchangedIff(f, es, sorted, after);
  }

  /** Where an entry sits in a list that holds it. */
  lemma IndexIn(xs: Entries, e: (string, string)) returns (k: nat)
    requires e in xs
    ensures k < |xs| && xs[k] == e
  {
    k :| 0 <= k < |xs| && xs[k] == e;
  }

  lemma UnchangedIff(f: Lookup, es: Entries, sorted: Entries, after: Entries)
    requires ResolvesTo(f, sorted, after) && forall e :: e in es <==> e in sorted
    ensures Unchanged(sorted, after) <==> forall i :: 0 <= i < |es| ==> f(es[i].0, es[i].1) == Some(es[i].1)
  {
    if Unchanged(sorted, after) {
      forall i | 0 <= i < |es|
        ensures f(es[i].0, es[i].1) == Some(es[i].1)
      {
        assert es[i] in es;
        var k := IndexIn(sorted, es[i]);
      }
    }
    if forall i :: 0 <= i < |es| ==> f(es[i].0, es[i].1) == Some(es[i].1) {
      forall k | 0 <= k < |sorted|
        ensures sorted[k].1 == after[k].1
      {
        assert sorted[k] in sorted;
        var i := IndexIn(es, sorted[k]);
      }
    }
  }

  /** The properties that are not dependency groups, in order. */
  function Others(props: seq<(string, Value)>): seq<(string, Value)>
    decreases |props|
  {
    if props == [] then []
    else (if IsGroupKey(props[0].0) then [] else [props[0]]) + Others(props[1..])
  }

  /** Every other property is kept as it was, in the same order, and every dependency
      group in the result holds a non-empty object of entries in name order. */
  lemma {:induction false} RewriteAllKeepsOthers(c: Cache, strict: bool, props: seq<(string, Value)>)
    requires RewriteAll(c, strict, props).Some?
    ensures Others(RewriteAll(c, strict, props).value.0) == Others(props)
    ensures forall p :: p in RewriteAll(c, strict, props).value.0 && IsGroupKey(p.0) ==>
              p.1.Object? && p.1.entries != [] && SortedBy(EntryName, p.1.entries)
    decreases |props|
  {
    if props != [] {
      var (o, ch) := Rewrite(c, strict, props[0]).value;
      var (out, changes) := RewriteAll(c, strict, props[1..]).value;
      RewriteAllKeepsOthers(c, strict, props[1..]);
      OthersAppend(o, out);
      if IsGroupKey(props[0].0) {
        RewriteGroup(c, strict, props[0]);
        if o != [] {
          assert Others(o) == Others(o[1..]);
        }
      } else {
        assert Others(o) == [props[0]] + Others(o[1..]);
      }
    }
  }

  lemma {:induction false} OthersAppend(a: seq<(string, Value)>, b: seq<(string, Value)>)
    ensures Others(a + b) == Others(a) + Others(b)
    decreases |a|
  {
    if a != [] {
      assert (a + b)[0] == a[0];
      assert (a + b)[1..] == a[1..] + b;
      OthersAppend(a[1..], b);
    } else {
      assert a + b == b;
    }
  }

  /** The outer loop: every property in key order, threading the cache; the rewritten
      properties and all changes, or the first error. */
  function ProcessProps(c: Cache, fetch: Fetch, strict: bool, props: seq<(string, Value)>)
    : (r: (Cache, Result<(seq<(string, Value)>, seq<Change>), Error>))
    requires Ready(c) && Typed(props)
    ensures Ready(r.0) && Grows(c, r.0)
    ensures r.1.Success? ==> RewriteAll(r.0, strict, props) == Some(r.1.value)
    ensures r.1.Failure? ==> RewriteAll(r.0, strict, props).None?
    decreases |props|
  {
    if props == [] then (c, Success(([], [])))
    else
      var p := props[0];
      assert Typed(props[1..]) by {
        assert forall k :: 1 <= k < |props| ==> props[k] == props[1..][k - 1];
      }
      if !IsGroupKey(p.0) then
        var (c1, rest) := ProcessProps(c, fetch, strict, props[1..]);
        RewriteAllStep(c1, strict, props);
        match rest
        case Failure(e) => (c1, Failure(e))
        case Success((out, changes)) =>
          assert [] + changes == changes;
          (c1, Success(([p] + out, changes)))
      else
        var sorted := SortBy(EntryName, EntriesOf(p.1));
        var (c1, head) := UpdateEntries(c, fetch, strict, Kind(p.0), sorted);
        match head
        case Failure(e) => (c1, Failure(e))
        case Success((after, ch)) =>
          var (c2, rest) := ProcessProps(c1, fetch, strict, props[1..]);
          GrowsTransitive(c, c1, c2);
          RewriteKept(c1, c2, strict, p, after);
          RewriteAllStep(c2, strict, props);
          match rest
          case Failure(e) => (c2, Failure(e))
          case Success((out, changes)) =>
            (c2, Success(((if after == [] then [] else [(p.0, Object(after))]) + out, ch + changes)))
  }

  /** A first property that rewrites leaves the rest to decide the outcome. */
  lemma RewriteAllStep(c: Cache, strict: bool, props: seq<(string, Value)>)
    requires props != []
    ensures Rewrite(c, strict, props[0]).None? ==> RewriteAll(c, strict, props).None?
    ensures Rewrite(c, strict, props[0]).Some? ==>
              && (RewriteAll(c, strict, props).Some? <==> RewriteAll(c, strict, props[1..]).Some?)
              && (RewriteAll(c, strict, props).Some? ==>
                    RewriteAll(c, strict, props).value
                      == (Rewrite(c, strict, props[0]).value.0 + RewriteAll(c, strict, props[1..]).value.0,
                          Rewrite(c, strict, props[0]).value.1 + RewriteAll(c, strict, props[1..]).value.1))
    ensures !IsGroupKey(props[0].0) ==> Rewrite(c, strict, props[0]) == Some(([props[0]], []))
  {
  }

  /** A group whose sorted entries resolved against `c1` rewrites the same way against
      any catalog that grew from `c1`. */
  lemma RewriteKept(c1: Cache, c2: Cache, strict: bool, p: (string, Value), after: Entries)
    requires IsGroupKey(p.0) && Grows(c1, c2)
    requires ResolveEntries(ResolutionIn(c1, strict), SortBy(EntryName, EntriesOf(p.1))) == Some(after)
    ensures Rewrite(c2, strict, p)
            == Some((if after == [] then [] else [(p.0, Object(after))],
                     ChangesOf(SortBy(EntryName, EntriesOf(p.1)), after, Kind(p.0))))
  {
    ResolveEntriesKept(c1, c2, strict, SortBy(EntryName, EntriesOf(p.1)));
  }

  /** `semver.inc(version, level)`: the incremented version for a valid version string,
      `null` for anything else. */
  function IncField(f: Field, level: Level): (r: Field)
    ensures r.Str? <==> f.Str? && Parse(f.s).Some?
    ensures !r.Str? ==> r == Null
    ensures r.Str? ==> var v := Inc(Parse(f.s).value, level);
                       && Lt(Parse(f.s).value, v)
                       && (Parse(r.s).Some? ==> Parse(r.s) == Some(v))
                       && r != f
  {
    match f
    case Str(s) =>
      (match Parse(s)
       case Some(v) =>
         IncMovesText(s, v, level);
         Str(Format(Inc(v, level)))
       case None => Null)
    case _ => Null
  }

  /** The incremented version is written differently from the version it came from. */
  lemma IncMovesText(s: string, v: Version, level: Level)
    requires Parse(s) == Some(v)
    ensures Format(Inc(v, level)) != s
    ensures Parse(Format(Inc(v, level))).Some? ==> Parse(Format(Inc(v, level))) == Some(Inc(v, level))
  {
    FormatReadsBack(Inc(v, level));
    CompareZero(v, Inc(v, level));
  }

  /** JavaScript truthiness of the `version` property. */
  predicate Truthy(f: Field) {
    f.Str? && f.s != ""
  }

  /** The version written back: `src/index.ts` bumps whenever a level is given (so an
      absent version becomes `null`), `index.js` only when the version is truthy. */
  function Bumped(variant: Variant, bump: Option<Level>, f: Field): (r: Field)
    ensures bump.None? ==> r == f
    ensures r != f ==> bump.Some? && r == IncField(f, bump.value)
    ensures bump.Some? && Truthy(f) ==> r == IncField(f, bump.value) && r != f
    ensures bump.Some? && variant == IndexJs && !Truthy(f) ==> r == f
    ensures bump.Some? && variant == IndexTs ==> r == IncField(f, bump.value)
  {
    match bump
    case None => f
    case Some(level) =>
      if variant == IndexTs || Truthy(f) then IncField(f, level) else f
  }

  /** The two variants write the same version exactly when the version is truthy, no
      level is given, or the version is already `null`. */
  lemma BumpVariantsAgree(bump: Option<Level>, f: Field)
    ensures Bumped(IndexTs, bump, f) == Bumped(IndexJs, bump, f) <==>
              bump.None? || Truthy(f) || f == Null
  {
  }

  /** What processing one file reports: the changes, and the file contents written
      back (none when nothing changed). */
  datatype Report = Report(changes: seq<Change>, written: Option<Manifest>)

  /** `processPackage(file)` on the parsed file: the loop, then (only when something
      changed) the version bump and the write. */
  function ProcessPackage(variant: Variant, c: Cache, fetch: Fetch, opts: Options, m: Manifest)
    : (r: (Cache, Result<Report, Error>))
    requires Ready(c) && Typed(m.props)
    ensures Ready(r.0) && Grows(c, r.0)
    ensures r.1.Success? ==> (r.1.value.written.Some? <==> r.1.value.changes != [])
    ensures r.1.Success? ==>
              && RewriteAll(r.0, opts.strict, m.props).Some?
              && RewriteAll(r.0, opts.strict, m.props).value.1 == r.1.value.changes
              && (r.1.value.written.Some? ==>
                    r.1.value.written.value ==
                      Manifest(Bumped(variant, opts.bump, m.version), RewriteAll(r.0, opts.strict, m.props).value.0))
    ensures r.1.Failure? ==> RewriteAll(r.0, opts.strict, m.props).None?
  {
    var (c1, loop) := ProcessProps(c, fetch, opts.strict, m.props);
    match loop
    case Failure(e) => (c1, Failure(e))
    case Success((props, changes)) =>
      if changes == [] then (c1, Success(Report([], None)))
      else (c1, Success(Report(changes, Some(Manifest(Bumped(variant, opts.bump, m.version), props)))))
  }

  // ---------------------------------------------------------------------------
  // Several files
  // ---------------------------------------------------------------------------

  /** `files.filter((file, index) => files.indexOf(file) === index)`: every file once,
      at its first occurrence. */
  function Dedup(xs: seq<string>): (r: seq<string>)
    ensures Distinct(r)
    ensures forall x :: x in r <==> x in xs
    decreases |xs|
  {
    if xs == [] then []
    else
      var init := xs[..|xs| - 1];
      var last := xs[|xs| - 1];
      assert xs == init + [last];
      Dedup(init) + (if last in init then [] else [last])
  }

  /** The index of the first occurrence of `x`. */
  function FirstIndex(xs: seq<string>, x: string): (i: nat)
    requires x in xs
    ensures i < |xs| && xs[i] == x && x !in xs[..i]
  {
    if xs[0] == x then 0 else 1 + FirstIndex(xs[1..], x)
  }

  /** The files come out in the order of their first occurrences. */
  lemma {:induction false} DedupOrder(xs: seq<string>)
    ensures forall i, j :: 0 <= i < j < |Dedup(xs)| ==> FirstIndex(xs, Dedup(xs)[i]) < FirstIndex(xs, Dedup(xs)[j])
    decreases |xs|
  {
    if xs != [] {
      var init := xs[..|xs| - 1];
      var last := xs[|xs| - 1];
      DedupOrder(init);
      var d := Dedup(init);
      forall x | x in init
        ensures FirstIndex(xs, x) == FirstIndex(init, x)
      {
        FirstIndexPrefix(init, last, x);
      }
      assert xs == init + [last];
      if last !in init {
        assert FirstIndex(xs, last) == |xs| - 1;
        forall i | 0 <= i < |d|
          ensures FirstIndex(xs, Dedup(xs)[i]) < FirstIndex(xs, last)
        {
          assert Dedup(xs)[i] == d[i];
          assert d[i] in d;
        }
      }
      forall i, j | 0 <= i < j < |d|
        ensures FirstIndex(xs, Dedup(xs)[i]) < FirstIndex(xs, Dedup(xs)[j])
      {
        assert Dedup(xs)[i] == d[i] && Dedup(xs)[j] == d[j];
        assert d[i] in d && d[j] in d;
      }
    }
  }

  lemma {:induction false} FirstIndexPrefix(init: seq<string>, last: string, x: string)
    requires x in init
    ensures FirstIndex(init + [last], x) == FirstIndex(init, x)
    decreases |init|
  {
    if init[0] != x {
      assert (init + [last])[1..] == init[1..] + [last];
      FirstIndexPrefix(init[1..], last, x);
    }
  }

  /** A list without repeats passes through unchanged. */
  lemma {:induction false} DedupDistinct(xs: seq<string>)
    requires Distinct(xs)
    ensures Dedup(xs) == xs
    decreases |xs|
  {
    if xs != [] {
      var init := xs[..|xs| - 1];
      assert Distinct(init);
      DedupDistinct(init);
      assert xs[|xs| - 1] !in init;
      assert xs == init + [xs[|xs| - 1]];
    }
  }

  /** The files one by one, threading the cache; the reports, or the first error. */
  function ProcessAll(variant: Variant, c: Cache, fetch: Fetch, opts: Options, files: seq<Manifest>)
    : (r: (Cache, Result<seq<Report>, Error>))
    requires Ready(c) && forall k :: 0 <= k < |files| ==> Typed(files[k].props)
    ensures Ready(r.0) && Grows(c, r.0)
    ensures r.1.Success? ==> |r.1.value| == |files|
    ensures r.1.Success? ==> forall k :: 0 <= k < |files| ==>
              (r.1.value[k].written.Some? <==> r.1.value[k].changes != [])
    decreases |files|
  {
    if files == [] then (c, Success([]))
    else
      var (c1, head) := ProcessPackage(variant, c, fetch, opts, files[0]);
      match head
      case Failure(e) => (c1, Failure(e))
      case Success(report) =>
        assert forall k :: 1 <= k < |files| ==> files[k] == files[1..][k - 1];
        var (c2, rest) := ProcessAll(variant, c1, fetch, opts, files[1..]);
        GrowsTransitive(c, c1, c2);
        match rest
        case Failure(e) => (c2, Failure(e))
        case Success(reports) => (c2, Success([report] + reports))
  }

  /** `processPackages` as written in `src/index.ts`: whatever the files held, it
      resolves to `false`. */
  function ProcessPackagesAsWritten(c: Cache, fetch: Fetch, opts: Options, files: seq<Manifest>)
    : (r: (Cache, Result<bool, Error>))
    requires Ready(c) && forall k :: 0 <= k < |files| ==> Typed(files[k].props)
    ensures Ready(r.0)
    ensures r.1.Success? ==> !r.1.value
  {
    var (c1, all) := ProcessAll(IndexTs, c, fetch, opts, files);
    match all
    case Failure(e) => (c1, Failure(e))
    case Success(_) => (c1, Success(false))
  }

  /** `processPackages` as its `Promise<boolean>` result is read by the exit code:
      whether any file changed. */
  function ProcessPackages(c: Cache, fetch: Fetch, opts: Options, files: seq<Manifest>)
    : (r: (Cache, Result<bool, Error>))
    requires Ready(c) && forall k :: 0 <= k < |files| ==> Typed(files[k].props)
    ensures Ready(r.0)
    ensures r.1.Success? ==> var all := ProcessAll(IndexTs, c, fetch, opts, files).1;
              && all.Success?
              && (r.1.value <==> exists k :: 0 <= k < |all.value| && all.value[k].written.Some?)
  {
    var (c1, all) := ProcessAll(IndexTs, c, fetch, opts, files);
    match all
    case Failure(e) => (c1, Failure(e))
    case Success(reports) => (c1, Success(AnyWritten(reports)))
  }

  function AnyWritten(reports: seq<Report>): (b: bool)
    ensures b <==> exists k :: 0 <= k < |reports| && reports[k].written.Some?
    decreases |reports|
  {
    if reports == [] then false
    else reports[0].written.Some? || AnyWritten(reports[1..])
  }

  /** The discrepancy: when some file was rewritten, the function as written still
      reports that nothing changed, where the corrected one reports the change. */
  lemma ProcessPackagesDiscrepancy(c: Cache, fetch: Fetch, opts: Options, files: seq<Manifest>, k: nat)
    requires Ready(c) && forall i :: 0 <= i < |files| ==> Typed(files[i].props)
    requires ProcessAll(IndexTs, c, fetch, opts, files).1.Success?
    requires k < |files| && ProcessAll(IndexTs, c, fetch, opts, files).1.value[k].changes != []
    ensures ProcessPackagesAsWritten(c, fetch, opts, files).1 == Success(false)
    ensures ProcessPackages(c, fetch, opts, files).1 == Success(true)
  {
  }
}
