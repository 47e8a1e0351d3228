/**
 The tree-level passes of an updater: `update()` (children first, then the node's
 own groups, then a bump when anything moved), the `changed` aggregate, `align()`
 and the group normalisation `write()` performs before serialising.
 */
module Tree {
  import opened Wrappers
  import Text
  import opened Semver
  import opened Catalog
  import Workspaces
  import opened Nodes
  import opened Cascade
  import opened Updates
  import opened Sorting

  // ---------------------------------------------------------------------------
  // update()
  // ---------------------------------------------------------------------------

  /** What a pass of `update()` may do to the world: the frame fixed at `init` is
      kept, the cache only grows, and every node moves as the cascade allows. */
  predicate Advances(w: World, w': World) {
    && Frame(w, w')
    && Grows(w.cache, w'.cache)
    && Ready(w'.cache)
    && WellFormed(w')
    && forall i :: 0 <= i < |w.nodes| ==> NodeStep(w.nodes[i], w'.nodes[i])
  }

  lemma AdvancesReflexive(w: World)
    requires WellFormed(w) && Ready(w.cache)
    ensures Advances(w, w)
  {
  }

  lemma AdvancesTransitive(a: World, b: World, c: World)
    requires Advances(a, b) && Advances(b, c)
    ensures Advances(a, c)
  {
    GrowsTransitive(a.cache, b.cache, c.cache);
    forall i | 0 <= i < |a.nodes|
      ensures NodeStep(a.nodes[i], c.nodes[i])
    {
    }
  }

  lemma EvolvesAdvances(w: World, w': World)
    requires WellFormed(w) && Ready(w.cache) && Evolves(w, w')
    ensures Advances(w, w')
  {
    FrameWellFormed(w, w');
  }

  /** Every node keeps its version. */
  predicate SameVersions(w: World, w': World) {
    |w'.nodes| == |w.nodes| && forall i :: 0 <= i < |w.nodes| ==> w'.nodes[i].version == w.nodes[i].version
  }

  /** What the own pass of node `j` leaves: the registry and every other node as they
      were, the node with its groups rewritten as `UpdateOwn` promises and marked
      changed exactly when the report is not empty. */
  predicate SelfOutcome(w: World, j: nat, w': World, changes: seq<Change>)
    requires j < |w.nodes| && |w'.nodes| == |w.nodes|
  {
    && w'.reg == w.reg
    && (forall i :: 0 <= i < |w.nodes| && i != j ==> w'.nodes[i] == w.nodes[i])
    && w'.nodes[j] == w.nodes[j].(groups := w'.nodes[j].groups, changed := w.nodes[j].changed || changes != [])
    && OwnOutcome(w'.cache, w.reg, w.opts, w.nodes[j].groups, Success((w'.nodes[j].groups, changes)))
  }

  lemma SelfStep(w: World, j: nat, c': Cache, g': map<Group, Deps>, changes: seq<Change>)
    requires WellFormed(w) && Ready(w.cache) && j < |w.nodes|
    requires Ready(c') && Grows(w.cache, c')
    requires OwnOutcome(c', w.reg, w.opts, w.nodes[j].groups, Success((g', changes)))
    ensures var w' := SetNode(w.(cache := c'), j, w.nodes[j].(groups := g', changed := w.nodes[j].changed || changes != []));
            Advances(w, w') && SelfOutcome(w, j, w', changes)
  {
  }

  /** The node's own part of `update()`: the main group, then the others unless quick
      mode finds the main group unchanged; a non-empty report marks the node changed.
      An empty report leaves the groups as they were (see `OwnOutcome`), so the node
      is written back unchanged. */
  function UpdateSelf(w: World, fetch: Fetch, j: nat): (r: Result<(World, seq<Change>), UpdaterError>)
    requires WellFormed(w) && Ready(w.cache) && j < |w.nodes|
    ensures r.Success? ==> Advances(w, r.value.0) && SelfOutcome(w, j, r.value.0, r.value.1)
  {
    var n := w.nodes[j];
    var (c', own) := UpdateOwn(w.cache, fetch, n.config, w.reg, w.opts, n.groups);
    match own
    case Failure(e) => Failure(e)
    case Success((g', changes)) =>
      SelfStep(w, j, c', g', changes);
      Success((SetNode(w.(cache := c'), j, n.(groups := g', changed := n.changed || changes != [])), changes))
  }

  /** `update()` on node `j`: every child in order, then the node's own groups, then
      a bump when the node reported changes. */
  function UpdateNode(w: World, fetch: Fetch, j: nat): (r: Result<World, UpdaterError>)
    requires WellFormed(w) && Ready(w.cache) && j < |w.nodes|
    ensures r.Success? ==> Advances(w, r.value)
    ensures r.Success? && w.opts.bump.None? ==> SameVersions(w, r.value)
    decreases |w.nodes| - j, 1, 0
  {
    match UpdateChildren(w, fetch, j, 0)
    case Failure(e) => Failure(e)
    case Success(w1) =>
      match UpdateSelf(w1, fetch, j)
      case Failure(e) => Failure(e)
      case Success((w2, changes)) =>
        AdvancesTransitive(w, w1, w2);
        if changes == [] then Success(w2)
        else
          match Bump(w2, j)
          case Failure(e) => Failure(e)
          case Success(w3) =>
            EvolvesAdvances(w2, w3);
            AdvancesTransitive(w, w2, w3);
            Success(w3)
  }

  /** The children of node `j` from the `k`-th on, one after the other. */
  function UpdateChildren(w: World, fetch: Fetch, j: nat, k: nat): (r: Result<World, UpdaterError>)
    requires WellFormed(w) && Ready(w.cache) && j < |w.nodes| && k <= |w.nodes[j].children|
    ensures r.Success? ==> Advances(w, r.value)
    ensures r.Success? && w.opts.bump.None? ==> SameVersions(w, r.value)
    decreases |w.nodes| - j, 0, |w.nodes[j].children| - k
  {
    if k == |w.nodes[j].children| then
      AdvancesReflexive(w);
      Success(w)
    else
      match UpdateNode(w, fetch, w.nodes[j].children[k])
      case Failure(e) => Failure(e)
      case Success(w1) =>
        match UpdateChildren(w1, fetch, j, k + 1)
        case Failure(e) => Failure(e)
        case Success(w2) =>
          AdvancesTransitive(w, w1, w2);
          Success(w2)
  }

  /** A node whose own pass reports changes ends changed and, with a bump level, on
      its bump target; a node whose own pass reports nothing is not bumped. */
  lemma UpdateNodeBumps(w: World, fetch: Fetch, j: nat)
    requires WellFormed(w) && Ready(w.cache) && Targeted(w) && j < |w.nodes|
    requires UpdateNode(w, fetch, j).Success?
    ensures var w1 := UpdateChildren(w, fetch, j, 0).value;
            var (w2, changes) := UpdateSelf(w1, fetch, j).value;
            var w3 := UpdateNode(w, fetch, j).value;
            && (changes == [] ==> w3 == w2)
            && (changes != [] ==> w3.nodes[j].changed)
            && (changes != [] && w.opts.bump.Some? ==> AtTarget(w3.nodes[j]))
  {
    var w1 := UpdateChildren(w, fetch, j, 0).value;
    var (w2, changes) := UpdateSelf(w1, fetch, j).value;
    if changes != [] {
      FrameTargeted(w, w1);
      FrameTargeted(w1, w2);
      if w.opts.bump.Some? {
        BumpLandsOnTarget(w2, j);
      }
    }
  }

  /** The report, as printed: sorted by name with `<`. */
  function ChangeName(ch: Change): string {
    ch.name
  }

  function Report(changes: seq<Change>): (r: seq<Change>)
    ensures SortedBy(ChangeName, r)
    ensures multiset(r) == multiset(changes)
  {
    SortBy(ChangeName, changes)
  }

  /** Changes to one name keep their relative (update) order in the report. */
  lemma ReportStable(changes: seq<Change>, name: string)
    ensures WithKey(ChangeName, name, Report(changes)) == WithKey(ChangeName, name, changes)
  {
    SortByStable(ChangeName, changes, name);
  }

  // ---------------------------------------------------------------------------
  // changed
  // ---------------------------------------------------------------------------

  /** The `changed` getter: the node's own flag, or any child's aggregate. */
  function Changed(w: World, j: nat): bool
    requires WellFormed(w) && j < |w.nodes|
    decreases |w.nodes| - j, 1
  {
    w.nodes[j].changed || AnyChanged(w, j, 0)
  }

  /** The `reduce` over the children from the `k`-th on. */
  function AnyChanged(w: World, j: nat, k: nat): bool
    requires WellFormed(w) && j < |w.nodes| && k <= |w.nodes[j].children|
    decreases |w.nodes| - j, 0, |w.nodes[j].children| - k
  {
    k < |w.nodes[j].children| && (Changed(w, w.nodes[j].children[k]) || AnyChanged(w, j, k + 1))
  }

  /** A downward path through the tree, each step from a node to one of its children. */
  predicate IsPath(w: World, p: seq<nat>) {
    && |p| > 0
    && (forall m :: 0 <= m < |p| ==> p[m] < |w.nodes|)
    && (forall m :: 0 <= m < |p| - 1 ==> p[m + 1] in w.nodes[p[m]].children)
  }

  /** Node `i` lies in the subtree of node `j`. */
  ghost predicate Reaches(w: World, j: nat, i: nat) {
    exists p :: IsPath(w, p) && p[0] == j && p[|p| - 1] == i
  }

  lemma ReachesSelf(w: World, j: nat)
    requires j < |w.nodes|
    ensures Reaches(w, j, j)
  {
    assert IsPath(w, [j]);
  }

  /** A step to a child followed by a path below it. */
  lemma ReachesThroughChild(w: World, j: nat, c: nat, i: nat)
    requires j < |w.nodes| && c in w.nodes[j].children && Reaches(w, c, i)
    ensures Reaches(w, j, i)
  {
    var p :| IsPath(w, p) && p[0] == c && p[|p| - 1] == i;
    var q := [j] + p;
    assert forall m :: 0 < m < |q| ==> q[m] == p[m - 1];
    assert IsPath(w, q);
  }

  /** A path of more than one node starts with a step to a child. */
  lemma ReachesBelow(w: World, j: nat, i: nat) returns (c: nat)
    requires Reaches(w, j, i) && i != j
    ensures j < |w.nodes| && c in w.nodes[j].children && Reaches(w, c, i)
  {
    var p :| IsPath(w, p) && p[0] == j && p[|p| - 1] == i;
    c := p[1];
    var q := p[1..];
    assert forall m :: 0 <= m < |q| ==> q[m] == p[m + 1];
    assert IsPath(w, q);
  }

  lemma {:induction false} AnyChangedIff(w: World, j: nat, k: nat)
    requires WellFormed(w) && j < |w.nodes| && k <= |w.nodes[j].children|
    ensures AnyChanged(w, j, k) <==>
              exists m :: k <= m < |w.nodes[j].children| && Changed(w, w.nodes[j].children[m])
    decreases |w.nodes[j].children| - k
  {
    if k < |w.nodes[j].children| {
      AnyChangedIff(w, j, k + 1);
    }
  }

  /** `changed` holds exactly when some node of the subtree carries its own flag. */
  lemma {:induction false} ChangedIffReaches(w: World, j: nat)
    requires WellFormed(w) && j < |w.nodes|
    ensures Changed(w, j) <==> exists i :: 0 <= i < |w.nodes| && Reaches(w, j, i) && w.nodes[i].changed
    decreases |w.nodes| - j
  {
    var ch := w.nodes[j].children;
    if Changed(w, j) {
      if w.nodes[j].changed {
        ReachesSelf(w, j);
      } else {
        AnyChangedIff(w, j, 0);
        var m :| 0 <= m < |ch| && Changed(w, ch[m]);
        ChangedIffReaches(w, ch[m]);
        var i :| 0 <= i < |w.nodes| && Reaches(w, ch[m], i) && w.nodes[i].changed;
        ReachesThroughChild(w, j, ch[m], i);
      }
    }
    if exists i :: 0 <= i < |w.nodes| && Reaches(w, j, i) && w.nodes[i].changed {
      var i :| 0 <= i < |w.nodes| && Reaches(w, j, i) && w.nodes[i].changed;
      if i != j {
        var c := ReachesBelow(w, j, i);
        var m :| 0 <= m < |ch| && ch[m] == c;
        ChangedIffReaches(w, c);
        AnyChangedIff(w, j, 0);
      }
    }
  }

  // ---------------------------------------------------------------------------
  // align()
  // ---------------------------------------------------------------------------

  lemma ZeroValid()
    ensures IsValid("0.0.0")
  {
    var z := Zero();
    assert Text.NatToString(0) == "0";
    assert Format(z) == "0" + "." + "0" + "." + "0";
    assert Format(z) == "0.0.0";
    FormatRoundTrip(z);
    assert Parse("0.0.0").Some?;
  }

  /** The loop keeping the greater of the running maximum and each registered
      version; `semver.gt` throws on an invalid registered version. */
  function MaxVersion(es: seq<(string, string)>, aligned: string): (r: Result<string, UpdaterError>)
    decreases |es|
  {
    if es == [] then Success(aligned)
    else
      match CompareText(es[0].1, aligned)
      case None => Failure(InvalidVersion(es[0].1))
      case Some(c) => MaxVersion(es[1..], if c > 0 then es[0].1 else aligned)
  }

  /** `a` is a valid version no greater than the valid version `b`. */
  predicate NotAbove(a: string, b: string) {
    CompareText(a, b).Some? && CompareText(a, b).value <= 0
  }

  lemma NotAboveTransitive(a: string, b: string, c: string)
    requires NotAbove(a, b) && NotAbove(b, c)
    ensures NotAbove(a, c)
  {
    CompareTransitive(Parse(a).value, Parse(b).value, Parse(c).value);
  }

  /** One step of the loop: the running maximum never drops and is no lower than the
      version just compared. */
  lemma MaxStep(v: string, aligned: string)
    requires IsValid(v) && IsValid(aligned)
    ensures var next := if CompareText(v, aligned).value > 0 then v else aligned;
            IsValid(next) && NotAbove(aligned, next) && NotAbove(v, next)
  {
    CompareTextAntisymmetric(v, aligned);
    CompareTextReflexive(v);
    CompareTextReflexive(aligned);
  }

  /** Every version of the list satisfies `p`. */
  predicate Every(p: string -> bool, es: seq<(string, string)>)
    decreases |es|
  {
    es == [] || (p(es[0].1) && Every(p, es[1..]))
  }

  lemma {:induction false} EveryIff(p: string -> bool, es: seq<(string, string)>)
    ensures Every(p, es) <==> forall k :: 0 <= k < |es| ==> p(es[k].1)
    decreases |es|
  {
    if es != [] {
      EveryIff(p, es[1..]);
      assert forall k :: 0 < k < |es| ==> es[k] == es[1..][k - 1];
    }
  }

  /** Every version of the list is valid. */
  predicate AllValid(es: seq<(string, string)>) {
    Every(IsValid, es)
  }

  function NotAboveOf(m: string): string -> bool {
    v => NotAbove(v, m)
  }

  /** Every version of the list is valid and no greater than `m`. */
  predicate AllNotAbove(es: seq<(string, string)>, m: string) {
    Every(NotAboveOf(m), es)
  }

  lemma AllValidIff(es: seq<(string, string)>)
    ensures AllValid(es) <==> forall k :: 0 <= k < |es| ==> IsValid(es[k].1)
  {
    EveryIff(IsValid, es);
  }

  lemma AllNotAboveIff(es: seq<(string, string)>, m: string)
    ensures AllNotAbove(es, m) <==> forall k :: 0 <= k < |es| ==> NotAbove(es[k].1, m)
  {
    EveryIff(NotAboveOf(m), es);
  }

  /** The loop succeeds exactly when every version is valid. */
  lemma {:induction false} MaxVersionSucceeds(es: seq<(string, string)>, aligned: string)
    requires IsValid(aligned)
    ensures MaxVersion(es, aligned).Success? <==> AllValid(es)
    decreases |es|
  {
    if es != [] && IsValid(es[0].1) {
      MaxStep(es[0].1, aligned);
      MaxVersionSucceeds(es[1..], if CompareText(es[0].1, aligned).value > 0 then es[0].1 else aligned);
    }
  }

  /** What the loop yields is the starting value or one of the versions. */
  lemma {:induction false} MaxVersionWitness(es: seq<(string, string)>, aligned: string)
    requires MaxVersion(es, aligned).Success?
    ensures var m := MaxVersion(es, aligned).value;
            m == aligned || exists k :: 0 <= k < |es| && es[k].1 == m
    decreases |es|
  {
    if es != [] {
      var rest := es[1..];
      var next := if CompareText(es[0].1, aligned).value > 0 then es[0].1 else aligned;
      assert MaxVersion(es, aligned) == MaxVersion(rest, next);
      MaxVersionWitness(rest, next);
      var m := MaxVersion(es, aligned).value;
      if m != next {
        var k :| 0 <= k < |rest| && rest[k].1 == m;
        assert es[k + 1].1 == m;
      }
    }
  }

  /** The loop succeeds exactly when every version is valid, and then yields the
      starting value or one of the versions. */
  lemma MaxVersionTotal(es: seq<(string, string)>, aligned: string)
    requires IsValid(aligned)
    ensures MaxVersion(es, aligned).Success? <==> AllValid(es)
    ensures MaxVersion(es, aligned).Success? ==>
              var m := MaxVersion(es, aligned).value;
              m == aligned || exists k :: 0 <= k < |es| && es[k].1 == m
  {
    MaxVersionSucceeds(es, aligned);
    if MaxVersion(es, aligned).Success? {
      MaxVersionWitness(es, aligned);
    }
  }

  /** What the loop yields is no lower than the starting value or any version. */
  lemma {:induction false} MaxVersionBound(es: seq<(string, string)>, aligned: string)
    requires IsValid(aligned) && MaxVersion(es, aligned).Success?
    ensures NotAbove(aligned, MaxVersion(es, aligned).value)
    ensures AllNotAbove(es, MaxVersion(es, aligned).value)
    decreases |es|
  {
    var m := MaxVersion(es, aligned).value;
    if es == [] {
      CompareTextReflexive(aligned);
    } else {
      var rest := es[1..];
      MaxVersionTotal(es, aligned);
      MaxStep(es[0].1, aligned);
      var next := if CompareText(es[0].1, aligned).value > 0 then es[0].1 else aligned;
      MaxVersionBound(rest, next);
      NotAboveTransitive(aligned, next, m);
      NotAboveTransitive(es[0].1, next, m);
    }
  }

  /** The version `align(version)` assigns: the argument when given and not empty,
      otherwise the greatest registered version, starting from `0.0.0`. */
  function AlignedVersion(reg: Workspaces.Registry<nat>, version: Option<string>): (r: Result<string, UpdaterError>)
    requires Workspaces.Valid(reg)
    ensures version.Some? && version.value != "" ==> r == Success(version.value)
  {
    if version.Some? && version.value != "" then Success(version.value)
    else MaxVersion(Workspaces.Entries(reg), "0.0.0")
  }

  /** The position of a registered package among the `[name, version]` pairs. */
  lemma EntryIndex(reg: Workspaces.Registry<nat>, n: string) returns (k: nat)
    requires Workspaces.Valid(reg) && Workspaces.Has(reg, n)
    ensures k < |Workspaces.Entries(reg)| && Workspaces.Entries(reg)[k] == (n, reg.versions[n])
  {
    var es := Workspaces.Entries(reg);
    k :| 0 <= k < |es| && es[k].0 == n;
  }

  /** Every registered version is valid exactly when every listed pair is. */
  lemma EntriesValid(reg: Workspaces.Registry<nat>)
    requires Workspaces.Valid(reg)
    ensures AllValid(Workspaces.Entries(reg)) <==> forall n :: Workspaces.Has(reg, n) ==> IsValid(reg.versions[n])
  {
    var es := Workspaces.Entries(reg);
    AllValidIff(es);
    if AllValid(es) {
      forall n | Workspaces.Has(reg, n)
        ensures IsValid(reg.versions[n])
      {
        var k := EntryIndex(reg, n);
      }
    } else {
      var k :| 0 <= k < |es| && !IsValid(es[k].1);
      assert Workspaces.Has(reg, es[k].0);
    }
  }

  /** Every registered version is no greater than `m` exactly when every listed pair is. */
  lemma EntriesNotAbove(reg: Workspaces.Registry<nat>, m: string)
    requires Workspaces.Valid(reg) && AllNotAbove(Workspaces.Entries(reg), m)
    ensures forall n :: Workspaces.Has(reg, n) ==> NotAbove(reg.versions[n], m)
  {
    var es := Workspaces.Entries(reg);
    AllNotAboveIff(es, m);
    forall n | Workspaces.Has(reg, n)
      ensures NotAbove(reg.versions[n], m)
    {
      var k := EntryIndex(reg, n);
    }
  }

  /** The greatest registered version is `0.0.0` or one of the registered versions. */
  lemma MaxEntryWitness(reg: Workspaces.Registry<nat>)
    requires Workspaces.Valid(reg) && MaxVersion(Workspaces.Entries(reg), "0.0.0").Success?
    ensures var m := MaxVersion(Workspaces.Entries(reg), "0.0.0").value;
            m == "0.0.0" || exists n :: Workspaces.Has(reg, n) && reg.versions[n] == m
  {
    var es := Workspaces.Entries(reg);
    ZeroValid();
    MaxVersionTotal(es, "0.0.0");
    var m := MaxVersion(es, "0.0.0").value;
    if m != "0.0.0" {
      var k :| 0 <= k < |es| && es[k].1 == m;
      assert Workspaces.Has(reg, es[k].0);
    }
  }

  /** The greatest registered version is no lower than any registered version. */
  lemma MaxEntryBound(reg: Workspaces.Registry<nat>)
    requires Workspaces.Valid(reg) && MaxVersion(Workspaces.Entries(reg), "0.0.0").Success?
    ensures var m := MaxVersion(Workspaces.Entries(reg), "0.0.0").value;
            forall n :: Workspaces.Has(reg, n) ==> NotAbove(reg.versions[n], m)
  {
    var es := Workspaces.Entries(reg);
    ZeroValid();
    MaxVersionBound(es, "0.0.0");
    EntriesNotAbove(reg, MaxVersion(es, "0.0.0").value);
  }

  /** The loop over the registered versions succeeds exactly when all are valid. */
  lemma MaxEntryTotal(reg: Workspaces.Registry<nat>)
    requires Workspaces.Valid(reg)
    ensures MaxVersion(Workspaces.Entries(reg), "0.0.0").Success? <==>
              forall n :: Workspaces.Has(reg, n) ==> IsValid(reg.versions[n])
  {
    ZeroValid();
    MaxVersionTotal(Workspaces.Entries(reg), "0.0.0");
    EntriesValid(reg);
  }

  /** Without an argument, the aligned version is `0.0.0` or a registered version, no
      lower than any registered one; it fails exactly when one is invalid. */
  lemma AlignedVersionSpec(reg: Workspaces.Registry<nat>, version: Option<string>)
    requires Workspaces.Valid(reg) && (version.None? || version.value == "")
    ensures AlignedVersion(reg, version).Success? <==>
              forall n :: Workspaces.Has(reg, n) ==> IsValid(reg.versions[n])
    ensures AlignedVersion(reg, version).Success? ==>
              var m := AlignedVersion(reg, version).value;
              && (m == "0.0.0" || exists n :: Workspaces.Has(reg, n) && reg.versions[n] == m)
              && forall n :: Workspaces.Has(reg, n) ==> NotAbove(reg.versions[n], m)
  {
    assert AlignedVersion(reg, version) == MaxVersion(Workspaces.Entries(reg), "0.0.0");
    MaxEntryTotal(reg);
    if AlignedVersion(reg, version).Success? {
      MaxEntryWitness(reg);
      MaxEntryBound(reg);
    }
  }

  /** The setter on the children of `j` from the `k`-th on. On success each of those
      children has landed on `version` (or kept its version, when `version` has its
      original's precedence); every other node kept its version or was bumped. */
  function SetChildren(w: World, j: nat, k: nat, version: string): (r: Result<World, UpdaterError>)
    requires WellFormed(w) && j < |w.nodes| && k <= |w.nodes[j].children|
    ensures r.Success? ==> Frame(w, r.value) && r.value.cache == w.cache && WellFormed(r.value)
    ensures r.Success? ==> forall m :: k <= m < |w.nodes[j].children| ==>
                             Lands(w.nodes[w.nodes[j].children[m]], r.value.nodes[w.nodes[j].children[m]], version)
    ensures r.Success? ==> forall i :: 0 <= i < |w.nodes| && i !in w.nodes[j].children[k..] ==>
                             Moves(w.nodes[i], r.value.nodes[i])
    decreases |w.nodes[j].children| - k
  {
    if k == |w.nodes[j].children| then Success(w)
    else
      var child := w.nodes[j].children[k];
      SetVersionLands(w, child, version);
      match SetVersion(w, child, version)
      case Failure(e) => Failure(e)
      case Success(w1) =>
        match SetChildren(w1, j, k + 1, version)
        case Failure(e) => Failure(e)
        case Success(w2) =>
          FrameTransitive(w, w1, w2);
          LandsChain(w, w1, w2, j, k, version);
          Success(w2)
  }

  /** One step of `SetChildren`: the `k`-th child landed in `w1`, the later ones land in
      `w2`, and the setters on the later children only keep or bump it. */
  lemma LandsChain(w: World, w1: World, w2: World, j: nat, k: nat, version: string)
    requires WellFormed(w) && j < |w.nodes| && k < |w.nodes[j].children|
    requires Frame(w, w1) && Frame(w1, w2)
    requires var child := w.nodes[j].children[k];
             && Lands(w.nodes[child], w1.nodes[child], version)
             && forall i :: 0 <= i < |w.nodes| && i != child ==> Moves(w.nodes[i], w1.nodes[i])
    requires forall m :: k + 1 <= m < |w1.nodes[j].children| ==>
               Lands(w1.nodes[w1.nodes[j].children[m]], w2.nodes[w1.nodes[j].children[m]], version)
    requires forall i :: 0 <= i < |w1.nodes| && i !in w1.nodes[j].children[k + 1..] ==> Moves(w1.nodes[i], w2.nodes[i])
    ensures forall m :: k <= m < |w.nodes[j].children| ==>
              Lands(w.nodes[w.nodes[j].children[m]], w2.nodes[w.nodes[j].children[m]], version)
    ensures forall i :: 0 <= i < |w.nodes| && i !in w.nodes[j].children[k..] ==> Moves(w.nodes[i], w2.nodes[i])
  {
    var cs := w.nodes[j].children;
    var child := cs[k];
    assert w1.nodes[j].children == cs;
    assert cs[k..] == [child] + cs[k + 1..];
    forall m | k + 1 <= m < |cs|
      ensures Lands(w.nodes[cs[m]], w2.nodes[cs[m]], version)
    {
      var c := cs[m];
      assert Lands(w1.nodes[c], w2.nodes[c], version);
      LandsCompose(w.nodes[c], w1.nodes[c], w2.nodes[c], version);
    }
    if child !in cs[k + 1..] {
      assert Moves(w1.nodes[child], w2.nodes[child]);
      LandsCompose(w.nodes[child], w1.nodes[child], w2.nodes[child], version);
    } else {
      var p :| 0 <= p < |cs[k + 1..]| && cs[k + 1..][p] == child;
      assert cs[k + 1 + p] == child;
    }
    forall i | 0 <= i < |w.nodes| && i !in cs[k..]
      ensures Moves(w.nodes[i], w2.nodes[i])
    {
      assert i != child && i !in cs[k + 1..];
      assert w2.nodes[i].target == w1.nodes[i].target;
    }
  }

  /** `align(version)`: nothing with fewer than two registered packages; otherwise the
      aligned version is given to this node and to its direct children. */
  function Align(w: World, j: nat, version: Option<string>): (r: Result<World, UpdaterError>)
    requires WellFormed(w) && Workspaces.Valid(w.reg) && j < |w.nodes|
    ensures Workspaces.Length(w.reg) < 2 ==> r == Success(w)
    ensures r.Success? ==> Frame(w, r.value) && r.value.cache == w.cache && WellFormed(r.value)
    ensures Workspaces.Length(w.reg) >= 2 && AlignedVersion(w.reg, version).Failure? ==>
              r == Failure(AlignedVersion(w.reg, version).error)
    ensures Workspaces.Length(w.reg) >= 2 && r.Success? ==>
              && AlignedVersion(w.reg, version).Success?
              && Lands(w.nodes[j], r.value.nodes[j], AlignedVersion(w.reg, version).value)
              && forall m :: 0 <= m < |w.nodes[j].children| ==>
                   Lands(w.nodes[w.nodes[j].children[m]], r.value.nodes[w.nodes[j].children[m]],
                         AlignedVersion(w.reg, version).value)
  {
    if Workspaces.Length(w.reg) < 2 then Success(w)
    else
      match AlignedVersion(w.reg, version)
      case Failure(e) => Failure(e)
      case Success(v) =>
        SetVersionLands(w, j, v);
        match SetVersion(w, j, v)
        case Failure(e) => Failure(e)
        case Success(w1) =>
          match SetChildren(w1, j, 0, v)
          case Failure(e) => Failure(e)
          case Success(w2) =>
            FrameTransitive(w, w1, w2);
            AlignLands(w, w1, w2, j, v);
            Success(w2)
  }

  /** After the setter on `j` and the loop over its children, `j` is still landed
      (it is not its own child) and so is every child. */
  lemma AlignLands(w: World, w1: World, w2: World, j: nat, v: string)
    requires WellFormed(w) && j < |w.nodes| && Frame(w, w1) && Frame(w1, w2)
    requires Lands(w.nodes[j], w1.nodes[j], v)
    requires forall i :: 0 <= i < |w.nodes| && i != j ==> Moves(w.nodes[i], w1.nodes[i])
    requires forall m :: 0 <= m < |w1.nodes[j].children| ==>
               Lands(w1.nodes[w1.nodes[j].children[m]], w2.nodes[w1.nodes[j].children[m]], v)
    requires forall i :: 0 <= i < |w1.nodes| && i !in w1.nodes[j].children[0..] ==> Moves(w1.nodes[i], w2.nodes[i])
    ensures Lands(w.nodes[j], w2.nodes[j], v)
    ensures forall m :: 0 <= m < |w.nodes[j].children| ==>
              Lands(w.nodes[w.nodes[j].children[m]], w2.nodes[w.nodes[j].children[m]], v)
  {
    var cs := w.nodes[j].children;
    assert w1.nodes[j].children == cs;
    assert j !in cs[0..];
    assert Moves(w1.nodes[j], w2.nodes[j]);
    LandsCompose(w.nodes[j], w1.nodes[j], w2.nodes[j], v);
    forall m | 0 <= m < |cs|
      ensures Lands(w.nodes[cs[m]], w2.nodes[cs[m]], v)
    {
      assert cs[m] != j;
      LandsCompose(w.nodes[cs[m]], w1.nodes[cs[m]], w2.nodes[cs[m]], v);
    }
  }

  // ---------------------------------------------------------------------------
  // write()
  // ---------------------------------------------------------------------------

  function DepName(d: (string, string)): string {
    d.0
  }

  /** Every group present is non-empty and in name order. */
  predicate Normalised(groups: map<Group, Deps>) {
    forall t :: t in groups ==> groups[t] != [] && SortedBy(DepName, groups[t])
  }

  /** `write()`'s rewrite of a package file's groups: a non-empty group is emitted again
      with the same entries in name order, an empty or absent one is deleted. */
  function Normalise(groups: map<Group, Deps>): (r: map<Group, Deps>)
    ensures forall t :: t in r <==> t in groups && groups[t] != []
    ensures forall t :: t in r ==> SortedBy(DepName, r[t]) && multiset(r[t]) == multiset(groups[t])
  {
    map t | t in groups && groups[t] != [] :: SortBy(DepName, groups[t])
  }

  /** The rewrite yields a normalised file. */
  lemma NormaliseNormalised(groups: map<Group, Deps>)
    ensures Normalised(Normalise(groups))
  {
    var r := Normalise(groups);
    forall t | t in r
      ensures r[t] != []
    {
      assert groups[t][0] in multiset(groups[t]);
    }
  }

  /** A normalised file is left as it is. */
  lemma NormaliseKeepsNormalised(groups: map<Group, Deps>)
    requires Normalised(groups)
    ensures Normalise(groups) == groups
  {
    forall t | t in groups
      ensures SortBy(DepName, groups[t]) == groups[t]
    {
      SortBySorted(DepName, groups[t]);
    }
  }

  /** A normalised file is left as it is, and normalising twice is normalising once. */
  lemma NormaliseFixpoint(groups: map<Group, Deps>)
    ensures Normalised(Normalise(groups))
    ensures Normalise(groups) == groups <==> Normalised(groups)
    ensures Normalise(Normalise(groups)) == Normalise(groups)
  {
    NormaliseNormalised(groups);
    if Normalised(groups) {
      NormaliseKeepsNormalised(groups);
    }
    NormaliseKeepsNormalised(Normalise(groups));
  }

  /** Entries with the same name keep their order through the rewrite. */
  lemma NormaliseStable(groups: map<Group, Deps>, t: Group, name: string)
    requires t in groups && groups[t] != []
    ensures WithKey(DepName, name, Normalise(groups)[t]) == WithKey(DepName, name, groups[t])
  {
    SortByStable(DepName, groups[t], name);
  }

  /** Every node's groups are as they were or normalised, and nothing else moves. */
  predicate Written(w: World, w': World) {
    && |w'.nodes| == |w.nodes|
    && w'.reg == w.reg && w'.cache == w.cache && w'.opts == w.opts
    && forall i :: 0 <= i < |w.nodes| ==>
         || w'.nodes[i] == w.nodes[i]
         || w'.nodes[i] == w.nodes[i].(groups := Normalise(w.nodes[i].groups))
  }

  lemma WrittenTransitive(a: World, b: World, c: World)
    requires Written(a, b) && Written(b, c)
    ensures Written(a, c)
  {
    forall i | 0 <= i < |a.nodes|
      ensures || c.nodes[i] == a.nodes[i]
              || c.nodes[i] == a.nodes[i].(groups := Normalise(a.nodes[i].groups))
    {
      NormaliseFixpoint(a.nodes[i].groups);
    }
  }

  /** Once normalised, a node stays normalised through further writes. */
  lemma WrittenKeeps(a: World, b: World, c: World, i: nat)
    requires Written(a, b) && Written(b, c) && i < |a.nodes|
    requires b.nodes[i].groups == Normalise(a.nodes[i].groups)
    ensures c.nodes[i].groups == Normalise(a.nodes[i].groups)
  {
    NormaliseFixpoint(a.nodes[i].groups);
  }

  /** Writing keeps the shape of the tree. */
  lemma WrittenPaths(w: World, w': World, j: nat, i: nat)
    requires Written(w, w') && Reaches(w, j, i)
    ensures Reaches(w', j, i)
  {
    var p :| IsPath(w, p) && p[0] == j && p[|p| - 1] == i;
    assert IsPath(w', p);
  }

  /** `write()` on node `j`: its own groups, then each child's subtree in order. */
  function WriteTree(w: World, j: nat): (r: World)
    requires WellFormed(w) && j < |w.nodes|
    ensures Written(w, r) && WellFormed(r)
    ensures r.nodes[j].groups == Normalise(w.nodes[j].groups)
    decreases |w.nodes| - j, 1, 0
  {
    var n := w.nodes[j];
    var w1 := SetNode(w, j, n.(groups := Normalise(n.groups)));
    var w2 := WriteChildren(w1, j, 0);
    WrittenTransitive(w, w1, w2);
    WrittenKeeps(w, w1, w2, j);
    w2
  }

  function WriteChildren(w: World, j: nat, k: nat): (r: World)
    requires WellFormed(w) && j < |w.nodes| && k <= |w.nodes[j].children|
    ensures Written(w, r) && WellFormed(r)
    decreases |w.nodes| - j, 0, |w.nodes[j].children| - k
  {
    if k == |w.nodes[j].children| then w
    else
      var w1 := WriteTree(w, w.nodes[j].children[k]);
      var w2 := WriteChildren(w1, j, k + 1);
      WrittenTransitive(w, w1, w2);
      w2
  }

  /** `write()` normalises every node of the subtree. */
  lemma {:induction false} WriteTreeCovers(w: World, j: nat)
    requires WellFormed(w) && j < |w.nodes|
    ensures forall i :: 0 <= i < |w.nodes| && Reaches(w, j, i) ==>
              WriteTree(w, j).nodes[i].groups == Normalise(w.nodes[i].groups)
    decreases |w.nodes| - j, 1, 0
  {
    var n := w.nodes[j];
    var w1 := SetNode(w, j, n.(groups := Normalise(n.groups)));
    var w2 := WriteChildren(w1, j, 0);
    WriteChildrenCovers(w1, j, 0);
    forall i | 0 <= i < |w.nodes| && Reaches(w, j, i)
      ensures w2.nodes[i].groups == Normalise(w.nodes[i].groups)
    {
      if i == j {
        WrittenKeeps(w, w1, w2, j);
      } else {
        var c := ReachesBelow(w, j, i);
        var m :| 0 <= m < |n.children| && n.children[m] == c;
        WrittenPaths(w, w1, c, i);
        NormaliseFixpoint(w.nodes[i].groups);
      }
    }
  }

  lemma {:induction false} WriteChildrenCovers(w: World, j: nat, k: nat)
    requires WellFormed(w) && j < |w.nodes| && k <= |w.nodes[j].children|
    ensures forall m, i :: k <= m < |w.nodes[j].children| && 0 <= i < |w.nodes| && Reaches(w, w.nodes[j].children[m], i) ==>
              WriteChildren(w, j, k).nodes[i].groups == Normalise(w.nodes[i].groups)
    decreases |w.nodes| - j, 0, |w.nodes[j].children| - k
  {
    if k < |w.nodes[j].children| {
      var c := w.nodes[j].children[k];
      var w1 := WriteTree(w, c);
      var w2 := WriteChildren(w1, j, k + 1);
      WriteTreeCovers(w, c);
      WriteChildrenCovers(w1, j, k + 1);
      forall m, i | k <= m < |w.nodes[j].children| && 0 <= i < |w.nodes| && Reaches(w, w.nodes[j].children[m], i)
        ensures w2.nodes[i].groups == Normalise(w.nodes[i].groups)
      {
        NormaliseFixpoint(w.nodes[i].groups);
        if m == k {
          WrittenKeeps(w, w1, w2, i);
        } else {
          WrittenPaths(w, w1, w.nodes[j].children[m], i);
        }
      }
    }
  }
}
