/**
 The range resolver of `Updater._updateDependency`: given whether the dependency
 is a workspace package, its declared range, the strict flag and the catalog of
 published versions (newest first), the range it is rewritten to.
 */
module Resolver {
  import opened Wrappers
  import opened Text
  import opened Semver
  import opened Ranges

  /** What the resolver does with a declared range before it consults the catalog. */
  datatype Plan =
    | Verbatim
      /** The range library would be handed a range outside this model: trailing text
          in strict mode, a tag on a partial anchor, a partial anchor for a relaxed
          tilde, a leading zero, or a component of `MaxSafeInteger` or more. */
    | Unsupported
      /** Look for the first catalog version in `window`; `fallback` when there is none. */
    | Query(op: Op, fallback: string, window: Window)

  /** An anchor component the range library accepts and can increment. */
  function Component(s: string): (r: Option<nat>)
    ensures r.Some? <==> ParseComponent(s).Some? && ParseComponent(s).value < MaxSafeInteger
    ensures r.Some? ==> r.value == DigitsValue(s)
  {
    match ParseComponent(s)
    case Some(n) => if n < MaxSafeInteger then Some(n) else None
    case None => None
  }

  /** The anchor `X[.Y[.Z]]` of a recognised range, without a tag. */
  function ParseAnchor(parts: seq<string>): (r: Option<Anchor>)
    requires 1 <= |parts| <= 3
    ensures r.Some? <==> forall k :: 0 <= k < |parts| ==> Component(parts[k]).Some?
    ensures r.Some? ==> WellFormedAnchor(r.value) && r.value.pre == []
    ensures r.Some? ==> && r.value.major == Component(parts[0]).value
                        && (r.value.minor.Some? <==> |parts| >= 2)
                        && (r.value.patch.Some? <==> |parts| == 3)
                        && (|parts| >= 2 ==> r.value.minor.value == Component(parts[1]).value)
                        && (|parts| == 3 ==> r.value.patch.value == Component(parts[2]).value)
  {
    var major := Component(parts[0]);
    var minor := if |parts| >= 2 then Component(parts[1]) else Some(0);
    var patch := if |parts| == 3 then Component(parts[2]) else Some(0);
    if major.None? || minor.None? || patch.None? then None
    else
      Some(Anchor(major.value,
                  if |parts| >= 2 then Some(minor.value) else None,
                  if |parts| == 3 then Some(patch.value) else None,
                  []))
  }

  /** The pre-release identifiers the range library reads from a tag: `word.N` is two
      identifiers (the number must be a numeral), `word-N` is one. */
  function TagIdents(t: Tag): (r: Option<seq<Ident>>)
    ensures r.Some? ==> r.value != []
    ensures r.None? <==> t.sep == '.' && !IsNumeral(t.digits)
  {
    if t.sep == '.' then
      if IsNumeral(t.digits) then
        match ParseIdent(t.digits)
        case Some(n) => Some([Alnum(t.word), n])
        case None => assert false; None
      else None
    else Some([Alnum(t.word + "-" + t.digits)])
  }

  /** The operator followed by the anchor text, the no-match result. */
  function Fallback(sc: Scanned): string
    requires 1 <= |sc.parts|
  {
    [OpChar(sc.op)] + Join(sc.parts, '.')
  }

  /** The plan for a string the recogniser matched. Strict mode hands the whole string
      to the range library (so only the exact form is covered); relaxed mode builds
      `>=anchor` or `>=anchor <inc(anchor, major)` and ignores any tag. */
  function QueryFor(s: string, sc: Scanned, strict: bool): (p: Plan)
    requires Scan(s) == Some(sc)
    ensures p != Verbatim
    ensures p.Query? ==> p.op == sc.op && p.fallback == Fallback(sc)
    ensures p.Query? ==> ParseAnchor(sc.parts).Some? && p.window.lo.major == ParseAnchor(sc.parts).value.major
    ensures p.Query? && !strict ==> Relaxed(sc.op, ParseAnchor(sc.parts).value) == Some(p.window)
    ensures p.Query? && strict ==> AllSpace(s[sc.end..])
    ensures p.Query? && strict && sc.tag.None? ==> p.window == Strict(sc.op, ParseAnchor(sc.parts).value)
  {
    match ParseAnchor(sc.parts)
    case None => Unsupported
    case Some(a) =>
      var fallback := Fallback(sc);
      if strict then
        if !AllSpace(s[sc.end..]) then Unsupported
        else
          match sc.tag
          case None => Query(sc.op, fallback, Strict(sc.op, a))
          case Some(t) =>
            if a.patch.None? then Unsupported
            else
              match TagIdents(t)
              case None => Unsupported
              case Some(pre) => Query(sc.op, fallback, Strict(sc.op, a.(pre := pre)))
      else
        match Relaxed(sc.op, a)
        case None => Unsupported
        case Some(w) => Query(sc.op, fallback, w)
  }

  /** The checks before the catalog is consulted (src/updater.ts:213-234). */
  function PlanFor(registered: bool, declared: string, strict: bool): (p: Plan)
    ensures p == Verbatim <==> registered || Scan(declared).None?
    ensures p.Query? ==> p.fallback == Fallback(Scan(declared).value)
  {
    if registered then Verbatim
    else
      match Scan(declared)
      case None => Verbatim
      case Some(sc) => QueryFor(declared, sc, strict)
  }

  /** The catalog loop: the operator and the first accepted version, else the fallback. */
  function Finish(op: Op, fallback: string, w: Window, versions: seq<string>): (r: string)
    ensures FirstMatch(w, versions).None? ==> r == fallback
    ensures FirstMatch(w, versions).Some? ==>
              exists k :: && 0 <= k < |versions| && r == [OpChar(op)] + versions[k]
                          && TestText(w, versions[k], false)
                          && forall j :: 0 <= j < k ==> !TestText(w, versions[j], false)
  {
    match FirstMatch(w, versions)
    case Some(k) => [OpChar(op)] + versions[k]
    case None => fallback
  }

  /** `_updateDependency` once the catalog is known; `None` for an unsupported range. */
  function Resolve(registered: bool, declared: string, strict: bool, versions: seq<string>)
    : (r: Option<string>)
    ensures r.None? <==> PlanFor(registered, declared, strict) == Unsupported
    ensures PlanFor(registered, declared, strict) == Verbatim ==> r == Some(declared)
  {
    match PlanFor(registered, declared, strict)
    case Verbatim => Some(declared)
    case Unsupported => None
    case Query(op, fallback, w) => Some(Finish(op, fallback, w, versions))
  }

  // ---------------------------------------------------------------------------
  // Properties
  // ---------------------------------------------------------------------------

  /** A workspace package, or a range without a leading `^`/`~` and a digit, is
      returned as declared. */
  lemma VerbatimWhenRegisteredOrUnmatched(registered: bool, declared: string, strict: bool,
                                          versions: seq<string>)
    requires registered || !Matches(declared)
    ensures Resolve(registered, declared, strict, versions) == Some(declared)
  {
    ScanIffMatches(declared);
  }

  /** Otherwise the result is the operator followed either by a catalog version or by
      the bare anchor. */
  lemma ResolvedShape(declared: string, strict: bool, versions: seq<string>)
    requires Matches(declared)
    requires Resolve(false, declared, strict, versions).Some?
    ensures var r := Resolve(false, declared, strict, versions).value;
            var sc := Scan(declared).value;
            && |r| > 0 && r[0] == OpChar(sc.op)
            && (r == Fallback(sc) || r[1..] in versions)
  {
    ScanIffMatches(declared);
    var sc := Scan(declared).value;
    var p := PlanFor(false, declared, strict);
    var r := Finish(p.op, p.fallback, p.window, versions);
    if FirstMatch(p.window, versions).Some? {
      var k := FirstMatch(p.window, versions).value;
      assert r[1..] == versions[k];
    }
  }

  /** The no-match result is the operator and the anchor digits: no white space and
      no pre-release tag survive. */
  lemma FallbackIsBareAnchor(declared: string, strict: bool)
    requires PlanFor(false, declared, strict).Query?
    ensures var sc := Scan(declared).value;
            var fb := PlanFor(false, declared, strict).fallback;
            && fb == [OpChar(sc.op)] + declared[sc.anchorAt..sc.anchorEnd]
            && forall k :: 1 <= k < |fb| ==> IsDigit(fb[k]) || fb[k] == '.'
  {
    var sc := Scan(declared).value;
    JoinDigits(sc.parts);
  }

  lemma {:induction false} JoinDigits(parts: seq<string>)
    requires |parts| > 0
    requires forall k :: 0 <= k < |parts| ==> AllDigits(parts[k])
    ensures forall k :: 0 <= k < |Join(parts, '.')| ==> IsDigit(Join(parts, '.')[k]) || Join(parts, '.')[k] == '.'
  {
    if |parts| > 1 {
      JoinDigits(parts[1..]);
      var tail := Join(parts[1..], '.');
      var s := Join(parts, '.');
      assert s == parts[0] + ['.'] + tail;
      forall k | 0 <= k < |s|
        ensures IsDigit(s[k]) || s[k] == '.'
      {
        if k > |parts[0]| {
          assert s[k] == tail[k - |parts[0]| - 1];
        }
      }
    }
  }

  /** With a sorted catalog the result is the greatest version the window accepts. */
  lemma ResultIsGreatest(declared: string, strict: bool, versions: seq<string>, k: nat)
    requires SortedDescending(versions)
    requires PlanFor(false, declared, strict).Query?
    requires k < |versions| && TestText(PlanFor(false, declared, strict).window, versions[k], false)
    ensures var p := PlanFor(false, declared, strict);
            exists f :: && 0 <= f < |versions|
                        && Resolve(false, declared, strict, versions) == Some([OpChar(p.op)] + versions[f])
                        && TestText(p.window, versions[f], false)
                        && Le(Parse(versions[k]).value, Parse(versions[f]).value)
  {
    var p := PlanFor(false, declared, strict);
    FirstMatchIsGreatest(p.window, versions, k);
    var f := FirstMatch(p.window, versions).value;
    assert Resolve(false, declared, strict, versions) == Some([OpChar(p.op)] + versions[f]);
  }

  /** What a queried range should resolve to against a catalog: the bare anchor when
      no version fits the window, otherwise the operator followed by a fitting version
      at least as high as every fitting one. */
  predicate BestFit(p: Plan, versions: seq<string>, r: string)
    requires p.Query?
  {
    if forall k :: 0 <= k < |versions| ==> !TestText(p.window, versions[k], false) then r == p.fallback
    else
      exists f :: && 0 <= f < |versions| && r == [OpChar(p.op)] + versions[f]
                  && TestText(p.window, versions[f], false)
                  && forall k :: 0 <= k < |versions| && TestText(p.window, versions[k], false)
                                 ==> Le(Parse(versions[k]).value, Parse(versions[f]).value)
  }

  /** Against a newest-first catalog a queried range resolves to its best fit. */
  lemma ResolveIsBestFit(declared: string, strict: bool, versions: seq<string>)
    requires SortedDescending(versions)
    requires PlanFor(false, declared, strict).Query?
    ensures Resolve(false, declared, strict, versions).Some?
    ensures BestFit(PlanFor(false, declared, strict), versions, Resolve(false, declared, strict, versions).value)
  {
    var p := PlanFor(false, declared, strict);
    var r := Resolve(false, declared, strict, versions).value;
    match FirstMatch(p.window, versions)
    case None =>
      assert r == p.fallback;
    case Some(f) =>
      assert r == [OpChar(p.op)] + versions[f];
      forall k | 0 <= k < |versions| && TestText(p.window, versions[k], false)
        ensures Le(Parse(versions[k]).value, Parse(versions[f]).value)
      {
        FirstMatchIsGreatest(p.window, versions, k);
      }
  }

  /** In relaxed mode a resolved version is stable, never below the anchor, and for a
      tilde within the anchor's major version. */
  lemma RelaxedResultBounds(declared: string, versions: seq<string>, f: nat)
    requires PlanFor(false, declared, false).Query?
    requires f < |versions|
    requires Resolve(false, declared, false, versions) == Some([OpChar(PlanFor(false, declared, false).op)] + versions[f])
    requires TestText(PlanFor(false, declared, false).window, versions[f], false)
    ensures var sc := Scan(declared).value;
            var a := ParseAnchor(sc.parts).value;
            var v := Parse(versions[f]).value;
            && IsStable(v)
            && Le(Floor(a), v)
            && (sc.op == Tilde ==> v.major == a.major)
  {
    var sc := Scan(declared).value;
    var a := ParseAnchor(sc.parts).value;
    var v := Parse(versions[f]).value;
    StableAnchorStableResult(sc.op, a, false, v);
    NeverBelowAnchor(sc.op, a, false, v);
    if sc.op == Tilde {
      RelaxedTildeKeepsMajor(a, v);
    }
  }

  /** In strict mode, without a tag, a resolved version stays compatible: a caret keeps
      the leading non-zero component, a tilde the major and any given minor. */
  lemma StrictResultCompatible(declared: string, versions: seq<string>, f: nat)
    requires PlanFor(false, declared, true).Query?
    requires Scan(declared).value.tag.None?
    requires f < |versions|
    requires TestText(PlanFor(false, declared, true).window, versions[f], false)
    ensures var sc := Scan(declared).value;
            var a := ParseAnchor(sc.parts).value;
            var v := Parse(versions[f]).value;
            && IsStable(v)
            && Le(Floor(a), v)
            && v.major == a.major
            && (sc.op == Tilde && a.minor.Some? ==> v.minor == a.minor.value)
            && (sc.op == Caret && a.major == 0 && a.minor.Some? ==> v.minor == a.minor.value)
  {
    var sc := Scan(declared).value;
    var a := ParseAnchor(sc.parts).value;
    var v := Parse(versions[f]).value;
    StableAnchorStableResult(sc.op, a, true, v);
    NeverBelowAnchor(sc.op, a, true, v);
    match sc.op
    case Caret => StrictCaretKeepsLeading(a, v);
    case Tilde => StrictTildeKeepsMinor(a, v);
  }
}
