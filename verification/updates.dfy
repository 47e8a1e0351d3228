/**
 The dependency update pass of an updater: every declared range is rewritten to
 the range the resolver gives against the (stable-only) catalog of the package,
 group by group, and the changes are reported. The catalog is read through the
 shared version cache, so each package is fetched at most once.
 */
module Updates {
  import opened Wrappers
  import opened Catalog
  import opened Resolver
  import Workspaces
  import opened Nodes

  /** One rewritten dependency, as reported. */
  datatype Change = Change(name: string, declared: string, updated: string, group: Group)

  // ---------------------------------------------------------------------------
  // One dependency
  // ---------------------------------------------------------------------------

  /** What a declared range resolves to once the catalog in `c` is known: the
      reference the update pass is measured against. `None` when the range is
      outside the model or the stored fetch failed (or nothing is stored). */
  function Resolution(c: Cache, registered: bool, strict: bool, name: string, declared: string)
    : (r: Option<string>)
    ensures PlanFor(registered, declared, strict) == Verbatim ==> r == Some(declared)
    ensures PlanFor(registered, declared, strict) == Unsupported ==> r.None?
    ensures PlanFor(registered, declared, strict).Query? ==>
              (r.Some? <==> Key(name, false) in c.entries && c.entries[Key(name, false)].Success?)
  {
    match PlanFor(registered, declared, strict)
    case Verbatim => Some(declared)
    case Unsupported => None
    case Query(_, _, _) =>
      var key := Key(name, false);
      if key in c.entries && c.entries[key].Success? then
        Resolve(registered, declared, strict, c.entries[key].value)
      else None
  }

  /** Read from a ready cache, a queried range resolves to its best fit against the
      stored stable catalog of the package. */
  lemma ResolutionIsBestFit(c: Cache, registered: bool, strict: bool, name: string, declared: string)
    requires Ready(c)
    requires PlanFor(registered, declared, strict).Query?
    requires Key(name, false) in c.entries && c.entries[Key(name, false)].Success?
    ensures Resolution(c, registered, strict, name, declared).Some?
    ensures BestFit(PlanFor(registered, declared, strict), c.entries[Key(name, false)].value,
                    Resolution(c, registered, strict, name, declared).value)
  {
    ResolveIsBestFit(declared, strict, c.entries[Key(name, false)].value);
  }

  /** A resolution read from a cache is read the same from any cache that grew from it. */
  lemma ResolutionKept(c: Cache, c': Cache, registered: bool, strict: bool, name: string, declared: string)
    requires Grows(c, c')
    requires Resolution(c, registered, strict, name, declared).Some?
    ensures Resolution(c', registered, strict, name, declared) == Resolution(c, registered, strict, name, declared)
  {
  }

  /** `_updateDependency(name, declared)`: the cache after any fetch and the new range.
      A workspace package, an unrecognised range and a range outside the model are
      settled without a fetch; otherwise the stable catalog is read once. */
  function UpdateDependency(c: Cache, fetch: Fetch, config: Config, registered: bool, strict: bool,
                            name: string, declared: string): (r: (Cache, Result<string, UpdaterError>))
    requires Ready(c)
    ensures Ready(r.0) && Grows(c, r.0)
    ensures !PlanFor(registered, declared, strict).Query? ==> r.0 == c
    ensures PlanFor(registered, declared, strict).Query? ==> r.0 == GetVersions(c, fetch, name, config, false).0
    ensures r.1.Success? ==> Resolution(r.0, registered, strict, name, declared) == Some(r.1.value)
    ensures r.1.Failure? ==> Resolution(r.0, registered, strict, name, declared).None?
  {
    match PlanFor(registered, declared, strict)
    case Verbatim => (c, Success(declared))
    case Unsupported => (c, Failure(UnsupportedRange(name, declared)))
    case Query(_, _, _) =>
      var (c', outcome) := GetVersions(c, fetch, name, config, false);
      match outcome
      case Failure(e) => (c', Failure(FetchFailed(name, e)))
      case Success(versions) => (c', Success(Resolve(registered, declared, strict, versions).value))
  }

  // ---------------------------------------------------------------------------
  // One group
  // ---------------------------------------------------------------------------

  /** The resolutions of all entries of a group, read from `c`, under their names;
      `None` when some entry has none. */
  function ResolveAll(c: Cache, reg: Workspaces.Registry<nat>, strict: bool, deps: Deps): (r: Option<Deps>)
    decreases |deps|
  {
    if deps == [] then Some([])
    else
      var (name, declared) := deps[0];
      match Resolution(c, Workspaces.Has(reg, name), strict, name, declared)
      case None => None
      case Some(updated) =>
        match ResolveAll(c, reg, strict, deps[1..])
        case None => None
        case Some(rest) => Some([(name, updated)] + rest)
  }

  /** Entry by entry: a group resolves when every entry does, and then each entry
      keeps its name and takes its resolution. */
  lemma {:induction false} ResolveAllEntries(c: Cache, reg: Workspaces.Registry<nat>, strict: bool, deps: Deps)
    ensures ResolveAll(c, reg, strict, deps).Some? <==>
              forall k :: 0 <= k < |deps| ==>
                Resolution(c, Workspaces.Has(reg, deps[k].0), strict, deps[k].0, deps[k].1).Some?
    ensures ResolveAll(c, reg, strict, deps).Some? ==>
              var after := ResolveAll(c, reg, strict, deps).value;
              && |after| == |deps|
              && forall k :: 0 <= k < |deps| ==>
                   after[k] == (deps[k].0, Resolution(c, Workspaces.Has(reg, deps[k].0), strict, deps[k].0, deps[k].1).value)
    decreases |deps|
  {
    if deps != [] {
      ResolveAllEntries(c, reg, strict, deps[1..]);
      assert forall k :: 1 <= k < |deps| ==> deps[k] == deps[1..][k - 1];
    }
  }

  /** A resolved group reads the same from any cache that grew from the one it was read from. */
  lemma {:induction false} ResolveAllKept(c: Cache, c': Cache, reg: Workspaces.Registry<nat>, strict: bool, deps: Deps)
    requires Grows(c, c') && ResolveAll(c, reg, strict, deps).Some?
    ensures ResolveAll(c', reg, strict, deps) == ResolveAll(c, reg, strict, deps)
    decreases |deps|
  {
    if deps != [] {
      ResolutionKept(c, c', Workspaces.Has(reg, deps[0].0), strict, deps[0].0, deps[0].1);
      ResolveAllKept(c, c', reg, strict, deps[1..]);
    }
  }

  /** The entries of a group, one after the other, stopping at the first failure. */
  function UpdateEntries(c: Cache, fetch: Fetch, config: Config, reg: Workspaces.Registry<nat>, strict: bool,
                         deps: Deps): (r: (Cache, Result<Deps, UpdaterError>))
    requires Ready(c)
    ensures Ready(r.0) && Grows(c, r.0)
    ensures r.1.Success? ==> ResolveAll(r.0, reg, strict, deps) == Some(r.1.value)
    ensures r.1.Failure? ==> ResolveAll(r.0, reg, strict, deps).None?
    decreases |deps|
  {
    if deps == [] then (c, Success([]))
    else
      var (name, declared) := deps[0];
      var registered := Workspaces.Has(reg, name);
      var (c1, head) := UpdateDependency(c, fetch, config, registered, strict, name, declared);
      match head
      case Failure(e) => (c1, Failure(e))
      case Success(updated) =>
        var (c2, tail) := UpdateEntries(c1, fetch, config, reg, strict, deps[1..]);
        ResolutionKept(c1, c2, registered, strict, name, declared);
        GrowsTransitive(c, c1, c2);
        match tail
        case Failure(e) => (c2, Failure(e))
        case Success(rest) => (c2, Success([(name, updated)] + rest))
  }

  /** The report of a group: the entries whose value changed, in group order. */
  function ChangesOf(t: Group, before: Deps, after: Deps): (r: seq<Change>)
    decreases |before|
  {
    if before == [] || after == [] then []
    else
      var rest := ChangesOf(t, before[1..], after[1..]);
      if after[0].1 == before[0].1 then rest
      else [Change(before[0].0, before[0].1, after[0].1, t)] + rest
  }

  /** A change is reported for an entry exactly when its value moved, and with the
      entry's name, both values and the group. */
  lemma {:induction false} ChangesOfMembership(t: Group, before: Deps, after: Deps, ch: Change)
    requires |after| == |before|
    ensures ch in ChangesOf(t, before, after) <==>
              exists k :: && 0 <= k < |before| && after[k].1 != before[k].1
                          && ch == Change(before[k].0, before[k].1, after[k].1, t)
    decreases |before|
  {
    if before != [] {
      ChangesOfMembership(t, before[1..], after[1..], ch);
      if ch in ChangesOf(t, before[1..], after[1..]) {
        var k :| && 0 <= k < |before[1..]| && after[1..][k].1 != before[1..][k].1
                 && ch == Change(before[1..][k].0, before[1..][k].1, after[1..][k].1, t);
        assert before[k + 1] == before[1..][k] && after[k + 1] == after[1..][k];
      }
      if exists k :: && 0 <= k < |before| && after[k].1 != before[k].1
                     && ch == Change(before[k].0, before[k].1, after[k].1, t) {
        var k :| && 0 <= k < |before| && after[k].1 != before[k].1
                 && ch == Change(before[k].0, before[k].1, after[k].1, t);
        if k > 0 {
          assert before[k] == before[1..][k - 1] && after[k] == after[1..][k - 1];
        }
      }
    }
  }

  /** Same names in the same order. */
  predicate SameNames(before: Deps, after: Deps) {
    |after| == |before| && forall k :: 0 <= k < |before| ==> after[k].0 == before[k].0
  }

  /** No change is reported exactly when a group with the same names comes back
      as it was. */
  lemma {:induction false} NoChangesSameDeps(t: Group, before: Deps, after: Deps)
    requires SameNames(before, after)
    ensures ChangesOf(t, before, after) == [] <==> after == before
    decreases |before|
  {
    if before != [] {
      assert SameNames(before[1..], after[1..]) by {
        forall k | 0 <= k < |before| - 1
          ensures after[1..][k].0 == before[1..][k].0
        {
          assert after[1..][k] == after[k + 1] && before[1..][k] == before[k + 1];
        }
      }
      NoChangesSameDeps(t, before[1..], after[1..]);
      assert after == [after[0]] + after[1..] && before == [before[0]] + before[1..];
      if after[0].1 == before[0].1 {
        assert after[0] == before[0];
      }
    }
  }

  /** A resolved group keeps its names. */
  lemma ResolvedSameNames(c: Cache, reg: Workspaces.Registry<nat>, strict: bool, deps: Deps)
    requires ResolveAll(c, reg, strict, deps).Some?
    ensures SameNames(deps, ResolveAll(c, reg, strict, deps).value)
  {
    ResolveAllEntries(c, reg, strict, deps);
  }

  /** `_updateDependenciesGroup(type)`: a missing group reports nothing. */
  function UpdateGroup(c: Cache, fetch: Fetch, config: Config, reg: Workspaces.Registry<nat>, strict: bool,
                       t: Group, groups: map<Group, Deps>)
    : (r: (Cache, Result<(map<Group, Deps>, seq<Change>), UpdaterError>))
    requires Ready(c)
    ensures Ready(r.0) && Grows(c, r.0)
    ensures t !in groups ==> r == (c, Success((groups, [])))
    ensures r.1.Success? ==> && r.1.value.0.Keys == groups.Keys
                             && (forall u :: u in groups && u != t ==> r.1.value.0[u] == groups[u])
    ensures r.1.Success? && t in groups ==>
              && ResolveAll(r.0, reg, strict, groups[t]) == Some(r.1.value.0[t])
              && r.1.value.1 == ChangesOf(t, groups[t], r.1.value.0[t])
    ensures r.1.Failure? ==> t in groups && ResolveAll(r.0, reg, strict, groups[t]).None?
  {
    if t !in groups then (c, Success((groups, [])))
    else
      var (c', result) := UpdateEntries(c, fetch, config, reg, strict, groups[t]);
      match result
      case Failure(e) => (c', Failure(e))
      case Success(deps) => (c', Success((groups[t := deps], ChangesOf(t, groups[t], deps))))
  }

  // ---------------------------------------------------------------------------
  // All groups of one package
  // ---------------------------------------------------------------------------

  /** The groups `update` visits after the main one, in its order. */
  const LaterGroups: seq<Group> := [DevDependencies, OptionalDependencies, PeerDependencies]

  const UpdateOrder: seq<Group> := [Dependencies] + LaterGroups

  predicate DistinctGroups(ts: seq<Group>) {
    forall i, j :: 0 <= i < j < |ts| ==> ts[i] != ts[j]
  }

  lemma DistinctTail(ts: seq<Group>)
    requires DistinctGroups(ts) && ts != []
    ensures DistinctGroups(ts[1..]) && ts[0] !in ts[1..]
  {
  }

  /** The reports of the listed groups, concatenated in list order. */
  function AllChanges(ts: seq<Group>, before: map<Group, Deps>, after: map<Group, Deps>): seq<Change>
    decreases |ts|
  {
    if ts == [] then []
    else
      var t := ts[0];
      (if t in before && t in after then ChangesOf(t, before[t], after[t]) else [])
        + AllChanges(ts[1..], before, after)
  }

  /** Only the listed groups count. */
  lemma {:induction false} AllChangesLocal(ts: seq<Group>, before: map<Group, Deps>, after: map<Group, Deps>,
                                           before': map<Group, Deps>, after': map<Group, Deps>)
    requires forall t :: t in ts ==> (t in before && t in after <==> t in before' && t in after')
    requires forall t :: t in ts && t in before && t in after ==> before'[t] == before[t] && after'[t] == after[t]
    ensures AllChanges(ts, before, after) == AllChanges(ts, before', after')
    decreases |ts|
  {
    if ts != [] {
      AllChangesLocal(ts[1..], before, after, before', after');
    }
  }

  /** The listed groups report nothing exactly when none of them moved. */
  lemma {:induction false} AllChangesEmpty(ts: seq<Group>, before: map<Group, Deps>, after: map<Group, Deps>)
    requires before.Keys == after.Keys
    requires forall t :: t in ts && t in before ==> SameNames(before[t], after[t])
    ensures AllChanges(ts, before, after) == [] <==>
              forall t :: t in ts && t in before ==> after[t] == before[t]
    decreases |ts|
  {
    if ts != [] {
      AllChangesEmpty(ts[1..], before, after);
      var t := ts[0];
      if t in before {
        NoChangesSameDeps(t, before[t], after[t]);
      }
    }
  }

  /** Every listed group present in `before` resolved to its counterpart in `after`. */
  predicate GroupsResolved(c: Cache, reg: Workspaces.Registry<nat>, strict: bool, ts: seq<Group>,
                           before: map<Group, Deps>, after: map<Group, Deps>) {
    forall t :: t in ts && t in before ==> t in after && ResolveAll(c, reg, strict, before[t]) == Some(after[t])
  }

  /** The listed groups, one after the other. */
  function UpdateGroups(c: Cache, fetch: Fetch, config: Config, reg: Workspaces.Registry<nat>, strict: bool,
                        ts: seq<Group>, groups: map<Group, Deps>)
    : (r: (Cache, Result<(map<Group, Deps>, seq<Change>), UpdaterError>))
    requires Ready(c) && DistinctGroups(ts)
    ensures Ready(r.0) && Grows(c, r.0)
    ensures r.1.Success? ==> && r.1.value.0.Keys == groups.Keys
                             && (forall t :: t in groups && t !in ts ==> r.1.value.0[t] == groups[t])
                             && GroupsResolved(r.0, reg, strict, ts, groups, r.1.value.0)
                             && r.1.value.1 == AllChanges(ts, groups, r.1.value.0)
    ensures r.1.Failure? ==>
              exists t :: t in ts && t in groups && ResolveAll(r.0, reg, strict, groups[t]).None?
    decreases |ts|
  {
    if ts == [] then (c, Success((groups, [])))
    else
      var t := ts[0];
      var (c1, first) := UpdateGroup(c, fetch, config, reg, strict, t, groups);
      match first
      case Failure(e) => (c1, Failure(e))
      case Success((g1, ch1)) =>
        DistinctTail(ts);
        var (c2, rest) := UpdateGroups(c1, fetch, config, reg, strict, ts[1..], g1);
        GrowsTransitive(c, c1, c2);
        match rest
        case Failure(e) => (c2, Failure(e))
        case Success((g2, ch2)) =>
          GroupsStep(c1, c2, reg, strict, ts, groups, g1, g2);
          AllChangesLocal(ts[1..], g1, g2, groups, g2);
          (c2, Success((g2, ch1 + ch2)))
  }

  /** The head group resolved against the earlier cache stays resolved in the later one. */
  lemma GroupsStep(c1: Cache, c2: Cache, reg: Workspaces.Registry<nat>, strict: bool, ts: seq<Group>,
                   groups: map<Group, Deps>, g1: map<Group, Deps>, g2: map<Group, Deps>)
    requires ts != [] && ts[0] !in ts[1..] && Grows(c1, c2)
    requires g1.Keys == groups.Keys && g2.Keys == g1.Keys
    requires forall u :: u in groups && u != ts[0] ==> g1[u] == groups[u]
    requires ts[0] in groups ==> ResolveAll(c1, reg, strict, groups[ts[0]]) == Some(g1[ts[0]])
    requires forall u :: u in g1 && u !in ts[1..] ==> g2[u] == g1[u]
    requires GroupsResolved(c2, reg, strict, ts[1..], g1, g2)
    ensures GroupsResolved(c2, reg, strict, ts, groups, g2)
  {
    if ts[0] in groups {
      ResolveAllKept(c1, c2, reg, strict, groups[ts[0]]);
    }
  }

  /** The main group was present and moved. */
  predicate MainMoved(before: map<Group, Deps>, after: map<Group, Deps>) {
    Dependencies in before && Dependencies in after && after[Dependencies] != before[Dependencies]
  }

  /** What the group pass of `update()` promises: the groups keep their names; the
      main group is always resolved; every group is resolved, and the report lists
      every move in update order, unless quick mode is on and the main group did not
      move, in which case nothing moves; a failure comes from a group that does not
      resolve. */
  predicate OwnOutcome(c: Cache, reg: Workspaces.Registry<nat>, opts: Options, groups: map<Group, Deps>,
                       r: Result<(map<Group, Deps>, seq<Change>), UpdaterError>) {
    && (r.Success? ==> SameKeys(groups, r.value.0))
    && (r.Success? ==> (r.value.1 == [] <==> r.value.0 == groups))
    && (r.Success? ==> GroupsResolved(c, reg, opts.strict, [Dependencies], groups, r.value.0))
    && (r.Success? && (!opts.quick || MainMoved(groups, r.value.0)) ==>
          && GroupsResolved(c, reg, opts.strict, UpdateOrder, groups, r.value.0)
          && r.value.1 == AllChanges(UpdateOrder, groups, r.value.0))
    && (r.Success? && opts.quick && !MainMoved(groups, r.value.0) ==> r.value == (groups, []))
    && (r.Failure? ==>
          exists t :: t in UpdateOrder && t in groups && ResolveAll(c, reg, opts.strict, groups[t]).None?)
  }

  /** The group pass of `update()`: the main group first, then the others in
      `LaterGroups` order, unless quick mode is on and the main group did not move. */
  function UpdateOwn(c: Cache, fetch: Fetch, config: Config, reg: Workspaces.Registry<nat>, opts: Options,
                     groups: map<Group, Deps>)
    : (r: (Cache, Result<(map<Group, Deps>, seq<Change>), UpdaterError>))
    requires Ready(c)
    ensures Ready(r.0) && Grows(c, r.0)
    ensures OwnOutcome(r.0, reg, opts, groups, r.1)
  {
    var (c1, main) := UpdateGroups(c, fetch, config, reg, opts.strict, [Dependencies], groups);
    match main
    case Failure(e) => (c1, Failure(e))
    case Success((g1, ch1)) =>
      MainPass(c1, reg, opts, groups, g1, ch1);
      if ch1 == [] && opts.quick then (c1, Success((g1, ch1)))
      else LaterPass(c1, fetch, config, reg, opts, groups, g1, ch1)
  }

  /** What the main pass leaves: the main group resolved, the rest untouched. */
  predicate AfterMain(c: Cache, reg: Workspaces.Registry<nat>, strict: bool,
                      groups: map<Group, Deps>, g1: map<Group, Deps>, ch1: seq<Change>) {
    && g1.Keys == groups.Keys
    && (forall t :: t in groups && t != Dependencies ==> g1[t] == groups[t])
    && GroupsResolved(c, reg, strict, [Dependencies], groups, g1)
    && ch1 == AllChanges([Dependencies], groups, g1)
  }

  /** After the main pass, no report means no move, and in quick mode nothing else runs. */
  lemma MainPass(c: Cache, reg: Workspaces.Registry<nat>, opts: Options,
                 groups: map<Group, Deps>, g1: map<Group, Deps>, ch1: seq<Change>)
    requires g1.Keys == groups.Keys
    requires forall t :: t in groups && t !in [Dependencies] ==> g1[t] == groups[t]
    requires GroupsResolved(c, reg, opts.strict, [Dependencies], groups, g1)
    requires ch1 == AllChanges([Dependencies], groups, g1)
    ensures AfterMain(c, reg, opts.strict, groups, g1, ch1)
    ensures ch1 == [] <==> !MainMoved(groups, g1)
    ensures ch1 == [] && opts.quick ==> OwnOutcome(c, reg, opts, groups, Success((g1, ch1)))
  {
    ResolvedShape(c, reg, opts.strict, [Dependencies], groups, g1);
    AllChangesEmpty([Dependencies], groups, g1);
  }

  /** The second pass of `update()` over the other groups. */
  function LaterPass(c1: Cache, fetch: Fetch, config: Config, reg: Workspaces.Registry<nat>, opts: Options,
                     groups: map<Group, Deps>, g1: map<Group, Deps>, ch1: seq<Change>)
    : (r: (Cache, Result<(map<Group, Deps>, seq<Change>), UpdaterError>))
    requires Ready(c1) && AfterMain(c1, reg, opts.strict, groups, g1, ch1)
    requires !opts.quick || MainMoved(groups, g1)
    ensures Ready(r.0) && Grows(c1, r.0)
    ensures OwnOutcome(r.0, reg, opts, groups, r.1)
  {
    var (c2, rest) := UpdateGroups(c1, fetch, config, reg, opts.strict, LaterGroups, g1);
    match rest
    case Failure(e) =>
      FailureOutcome(c2, reg, opts, groups, g1, e);
      (c2, Failure(e))
    case Success((g2, ch2)) =>
      LaterStep(c1, c2, reg, opts, groups, g1, g2, ch1, ch2);
      (c2, Success((g2, ch1 + ch2)))
  }

  lemma FailureOutcome(c: Cache, reg: Workspaces.Registry<nat>, opts: Options,
                       groups: map<Group, Deps>, g1: map<Group, Deps>, e: UpdaterError)
    requires g1.Keys == groups.Keys
    requires forall t :: t in groups && t != Dependencies ==> g1[t] == groups[t]
    requires exists t :: t in LaterGroups && t in g1 && ResolveAll(c, reg, opts.strict, g1[t]).None?
    ensures OwnOutcome(c, reg, opts, groups, Failure(e))
  {
    var t :| t in LaterGroups && t in g1 && ResolveAll(c, reg, opts.strict, g1[t]).None?;
    EveryGroupListed(t);
  }

  lemma LaterStep(c1: Cache, c2: Cache, reg: Workspaces.Registry<nat>, opts: Options,
                  groups: map<Group, Deps>, g1: map<Group, Deps>, g2: map<Group, Deps>,
                  ch1: seq<Change>, ch2: seq<Change>)
    requires Grows(c1, c2) && AfterMain(c1, reg, opts.strict, groups, g1, ch1)
    requires !opts.quick || MainMoved(groups, g1)
    requires g2.Keys == g1.Keys
    requires forall t :: t in g1 && t !in LaterGroups ==> g2[t] == g1[t]
    requires GroupsResolved(c2, reg, opts.strict, LaterGroups, g1, g2)
    requires ch2 == AllChanges(LaterGroups, g1, g2)
    ensures OwnOutcome(c2, reg, opts, groups, Success((g2, ch1 + ch2)))
  {
    LaterShape(c1, c2, reg, opts.strict, groups, g1, g2);
    assert GroupsResolved(c2, reg, opts.strict, UpdateOrder, groups, g2)
        && GroupsResolved(c2, reg, opts.strict, [Dependencies], groups, g2) by {
      OwnStep(c1, c2, reg, opts.strict, groups, g1, g2);
    }
    assert ch1 + ch2 == AllChanges(UpdateOrder, groups, g2) && (ch1 + ch2 == [] <==> g2 == groups) by {
      OwnChanges(groups, g1, g2, ch1, ch2);
    }
    MainStillMoved(groups, g1, g2);
    SuccessOutcome(c2, reg, opts, groups, g2, ch1 + ch2);
  }

  /** Both passes keep the names of every group. */
  lemma LaterShape(c1: Cache, c2: Cache, reg: Workspaces.Registry<nat>, strict: bool,
                   groups: map<Group, Deps>, g1: map<Group, Deps>, g2: map<Group, Deps>)
    requires g1.Keys == groups.Keys && g2.Keys == g1.Keys
    requires forall t :: t in groups && t != Dependencies ==> g1[t] == groups[t]
    requires GroupsResolved(c1, reg, strict, [Dependencies], groups, g1)
    requires forall t :: t in g1 && t !in LaterGroups ==> g2[t] == g1[t]
    requires GroupsResolved(c2, reg, strict, LaterGroups, g1, g2)
    ensures SameKeys(groups, g2)
    ensures forall t :: t in groups ==> SameNames(groups[t], g1[t]) && SameNames(g1[t], g2[t])
  {
    ResolvedShape(c1, reg, strict, [Dependencies], groups, g1);
    ResolvedShape(c2, reg, strict, LaterGroups, g1, g2);
  }

  /** The second pass leaves the main group alone. */
  lemma MainStillMoved(groups: map<Group, Deps>, g1: map<Group, Deps>, g2: map<Group, Deps>)
    requires g2.Keys == g1.Keys
    requires forall t :: t in g1 && t !in LaterGroups ==> g2[t] == g1[t]
    ensures MainMoved(groups, g1) ==> MainMoved(groups, g2)
  {
    assert Dependencies !in LaterGroups;
  }

  lemma SuccessOutcome(c: Cache, reg: Workspaces.Registry<nat>, opts: Options,
                       groups: map<Group, Deps>, g: map<Group, Deps>, ch: seq<Change>)
    requires SameKeys(groups, g) && (ch == [] <==> g == groups)
    requires GroupsResolved(c, reg, opts.strict, UpdateOrder, groups, g)
    requires GroupsResolved(c, reg, opts.strict, [Dependencies], groups, g)
    requires ch == AllChanges(UpdateOrder, groups, g)
    requires !opts.quick || MainMoved(groups, g)
    ensures OwnOutcome(c, reg, opts, groups, Success((g, ch)))
  {
  }

  /** Groups resolved or left alone keep their names. */
  lemma ResolvedShape(c: Cache, reg: Workspaces.Registry<nat>, strict: bool, ts: seq<Group>,
                      before: map<Group, Deps>, after: map<Group, Deps>)
    requires after.Keys == before.Keys
    requires forall t :: t in before && t !in ts ==> after[t] == before[t]
    requires GroupsResolved(c, reg, strict, ts, before, after)
    ensures SameKeys(before, after)
    ensures forall t :: t in before ==> SameNames(before[t], after[t])
  {
    forall t | t in before
      ensures SameNames(before[t], after[t])
    {
      if t in ts {
        ResolvedSameNames(c, reg, strict, before[t]);
      }
    }
  }

  /** The main group, resolved in the first pass, stays resolved after the second. */
  lemma OwnStep(c1: Cache, c2: Cache, reg: Workspaces.Registry<nat>, strict: bool,
                groups: map<Group, Deps>, g1: map<Group, Deps>, g2: map<Group, Deps>)
    requires Grows(c1, c2) && g1.Keys == groups.Keys && g2.Keys == g1.Keys
    requires forall t :: t in groups && t != Dependencies ==> g1[t] == groups[t]
    requires forall t :: t in g1 && t !in LaterGroups ==> g2[t] == g1[t]
    requires GroupsResolved(c1, reg, strict, [Dependencies], groups, g1)
    requires GroupsResolved(c2, reg, strict, LaterGroups, g1, g2)
    ensures GroupsResolved(c2, reg, strict, UpdateOrder, groups, g2)
    ensures GroupsResolved(c2, reg, strict, [Dependencies], groups, g2)
  {
    if Dependencies in groups {
      ResolveAllKept(c1, c2, reg, strict, groups[Dependencies]);
    }
  }

  /** Every group is visited by a full pass. */
  lemma EveryGroupListed(t: Group)
    ensures t in UpdateOrder
  {
    assert UpdateOrder == [Dependencies, DevDependencies, OptionalDependencies, PeerDependencies];
  }

  /** The report of the two passes is the report of all groups in update order. */
  lemma OwnChanges(groups: map<Group, Deps>, g1: map<Group, Deps>, g2: map<Group, Deps>,
                   ch1: seq<Change>, ch2: seq<Change>)
    requires g1.Keys == groups.Keys && g2.Keys == g1.Keys
    requires forall t :: t in groups ==> SameNames(groups[t], g1[t]) && SameNames(g1[t], g2[t])
    requires forall t :: t in groups && t != Dependencies ==> g1[t] == groups[t]
    requires forall t :: t in g1 && t !in LaterGroups ==> g2[t] == g1[t]
    requires ch1 == AllChanges([Dependencies], groups, g1)
    requires ch2 == AllChanges(LaterGroups, g1, g2)
    ensures ch1 + ch2 == AllChanges(UpdateOrder, groups, g2)
    ensures ch1 + ch2 == [] <==> g2 == groups
  {
    AllChangesLocal(LaterGroups, g1, g2, groups, g2);
    AllChangesLocal([Dependencies], groups, g1, groups, g2);
    AllChangesSplit(groups, g2);
    OwnChangesEmpty(groups, g2);
  }

  /** The report in update order is the main group's followed by the others'. */
  lemma AllChangesSplit(before: map<Group, Deps>, after: map<Group, Deps>)
    ensures AllChanges(UpdateOrder, before, after)
         == AllChanges([Dependencies], before, after) + AllChanges(LaterGroups, before, after)
  {
    assert UpdateOrder[1..] == LaterGroups;
    assert [Dependencies][1..] == [];
  }

  lemma OwnChangesEmpty(groups: map<Group, Deps>, g2: map<Group, Deps>)
    requires g2.Keys == groups.Keys
    requires forall t :: t in groups ==> SameNames(groups[t], g2[t])
    ensures AllChanges(UpdateOrder, groups, g2) == [] <==> g2 == groups
  {
    AllChangesEmpty(UpdateOrder, groups, g2);
    forall t | t in groups
      ensures t in UpdateOrder
    {
      EveryGroupListed(t);
    }
  }
}
