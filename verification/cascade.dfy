/**
 The version cascade of a workspace tree: the `version` setter publishes a new
 version to the registry, the registry calls every node's listener, a listener
 that rewrites a dependency bumps its own node, and that bump goes through the
 setter again. Every function returns the world after the whole cascade, or the
 error that aborts it.
 */
module Cascade {
  import opened Wrappers
  import opened Semver
  import opened Workspaces
  import opened Nodes

  /** The first index of an entry named `name`. */
  function FindName(deps: Deps, name: string): (r: Option<nat>)
    ensures r.Some? ==> r.value < |deps| && deps[r.value].0 == name
    ensures r.Some? ==> forall k :: 0 <= k < r.value ==> deps[k].0 != name
    ensures r.None? ==> forall k :: 0 <= k < |deps| ==> deps[k].0 != name
  {
    if |deps| == 0 then None
    else if deps[0].0 == name then Some(0)
    else
      match FindName(deps[1..], name)
      case None => None
      case Some(k) =>
        assert forall m :: 1 <= m <= k ==> deps[m] == deps[1..][m - 1];
        Some(k + 1)
  }

  /** The listener's rewrite of one group: only a group that declares `name` with a
      truthy value other than `version` changes, and only that entry, to the bare
      version. */
  function Relist(deps: Deps, name: string, version: string): (r: Option<Deps>)
    ensures r.None? <==> FindName(deps, name).None? || deps[FindName(deps, name).value].1 in {"", version}
    ensures r.Some? ==> var k := FindName(deps, name).value;
                        && |r.value| == |deps|
                        && r.value[k] == (name, version)
                        && forall m :: 0 <= m < |deps| && m != k ==> r.value[m] == deps[m]
  {
    match FindName(deps, name)
    case None => None
    case Some(k) =>
      if deps[k].1 == "" || deps[k].1 == version then None
      else Some(deps[k := (name, version)])
  }

  /** The checks and the assignment of the `version` setter: `None` when the setter
      returns early, else the world with the new version (still to be published). */
  function SetterStep(w: World, j: nat, version: string): (r: Result<Option<World>, UpdaterError>)
    requires j < |w.nodes|
    ensures CompareText(w.nodes[j].original, version).None? ==> r == Failure(InvalidVersion(version))
    ensures CompareText(w.nodes[j].original, version) == Some(1) ==>
              r == Failure(BelowOriginal(version, w.nodes[j].original))
    ensures CompareText(w.nodes[j].original, version) == Some(0) ==> r == Success(None)
    ensures w.nodes[j].version == Some(version) && r.Success? ==> r == Success(None)
    ensures r == Success(None) ==> CompareText(w.nodes[j].original, version) == Some(0)
                                   || w.nodes[j].version == Some(version)
    ensures r.Success? ==> CompareText(w.nodes[j].original, version).Some?
                           && CompareText(w.nodes[j].original, version).value <= 0
    ensures r.Success? && r.value.Some? ==>
              && CompareText(w.nodes[j].original, version).Some?
              && CompareText(w.nodes[j].original, version).value < 0
              && w.nodes[j].version != Some(version)
              && r.value.value == SetNode(w, j, w.nodes[j].(version := Some(version), changed := true))
  {
    var n := w.nodes[j];
    var c := CompareText(n.original, version);
    if c.None? then Failure(InvalidVersion(version))
    else if c.value > 0 then Failure(BelowOriginal(version, n.original))
    else if c.value == 0 || n.version == Some(version) then Success(None)
    else Success(Some(SetNode(w, j, n.(version := Some(version), changed := true))))
  }

  /** A bump target is never the original version: a bump that succeeds moves forward. */
  lemma TargetAboveOriginal(original: string, level: Level)
    ensures CompareText(original, BumpTarget(original, level)).Some? ==>
              CompareText(original, BumpTarget(original, level)).value < 0
  {
    if CompareText(original, BumpTarget(original, level)).Some? {
      var v := Parse(original).value;
      var t := Inc(v, level);
      FormatReadsBack(t);
      assert Parse(BumpTarget(original, level)) == Some(t);
    }
  }

  /** `Workspaces.update(name, version)` followed by the listeners it notifies. */
  function Publish(w: World, name: string, version: string): (r: Result<World, UpdaterError>)
    requires WellFormed(w)
    ensures r.Success? ==> Evolves(w, r.value) && Pending(r.value) <= Pending(w)
    decreases Pending(w), 3, 0
  {
    match Workspaces.Update(w.reg, name, version)
    case Failure(e) => Failure(RegistryFailed(e))
    case Success((reg', notified)) =>
      var w1 := w.(reg := reg');
      ReplaceRegistry(w, reg');
      match Deliver(w1, notified, 0, name, version)
      case Failure(e) => Failure(e)
      case Success(w2) => EvolvesTransitive(w, w1, w2); Success(w2)
  }

  /** The listeners in `ls[k..]`, called one after the other. */
  function Deliver(w: World, ls: seq<nat>, k: nat, name: string, version: string): (r: Result<World, UpdaterError>)
    requires WellFormed(w) && k <= |ls|
    requires forall m :: 0 <= m < |ls| ==> ls[m] < |w.nodes|
    ensures r.Success? ==> Evolves(w, r.value) && Pending(r.value) <= Pending(w)
    decreases Pending(w), 2, |ls| - k
  {
    if k == |ls| then EvolvesReflexive(w); Success(w)
    else
      match Listen(w, ls[k], name, version, 0)
      case Failure(e) => Failure(e)
      case Success(w1) =>
        FrameWellFormed(w, w1);
        match Deliver(w1, ls, k + 1, name, version)
        case Failure(e) => Failure(e)
        case Success(w2) => EvolvesTransitive(w, w1, w2); Success(w2)
  }

  /** The listener of node `j`, from group `DependencyTypes[g]` on. */
  function Listen(w: World, j: nat, name: string, version: string, g: nat): (r: Result<World, UpdaterError>)
    requires WellFormed(w) && j < |w.nodes| && g <= |DependencyTypes|
    ensures r.Success? ==> Evolves(w, r.value) && Pending(r.value) <= Pending(w)
    decreases Pending(w), 1, |DependencyTypes| - g
  {
    if g == |DependencyTypes| then EvolvesReflexive(w); Success(w)
    else
      var t := DependencyTypes[g];
      var n := w.nodes[j];
      var relisted := if t in n.groups then Relist(n.groups[t], name, version) else None;
      if relisted.None? then Listen(w, j, name, version, g + 1)
      else
        var w1 := SetNode(w, j, n.(groups := n.groups[t := relisted.value], changed := true));
        RegroupNode(w, j, t, relisted.value);
        match Bump(w1, j)
        case Failure(e) => Failure(e)
        case Success(w2) =>
          EvolvesTransitive(w, w1, w2);
          FrameWellFormed(w, w2);
          match Listen(w2, j, name, version, g + 1)
          case Failure(e) => Failure(e)
          case Success(w3) => EvolvesTransitive(w, w2, w3); Success(w3)
  }

  /** `_bump`: with a bump level, set the version to `inc(original, level) || original`. */
  function Bump(w: World, j: nat): (r: Result<World, UpdaterError>)
    requires WellFormed(w) && j < |w.nodes|
    ensures r.Success? ==> Evolves(w, r.value) && Pending(r.value) <= Pending(w)
    decreases Pending(w), 0, 0
  {
    if w.opts.bump.None? then EvolvesReflexive(w); Success(w)
    else
      var target := w.nodes[j].target;
      match SetterStep(w, j, target)
      case Failure(e) => Failure(e)
      case Success(None) => EvolvesReflexive(w); Success(w)
      case Success(Some(w1)) =>
        SettleNode(w, j);
        match w.nodes[j].name
        case None => Success(w1)
        case Some(name) =>
          match Publish(w1, name, target)
          case Failure(e) => Failure(e)
          case Success(w2) => EvolvesTransitive(w, w1, w2); Success(w2)
  }

  /** The `version` setter, called with any version. */
  function SetVersion(w: World, j: nat, version: string): (r: Result<World, UpdaterError>)
    requires WellFormed(w) && j < |w.nodes|
    ensures r.Success? ==> Frame(w, r.value) && r.value.cache == w.cache && WellFormed(r.value)
  {
    match SetterStep(w, j, version)
    case Failure(e) => Failure(e)
    case Success(None) => Success(w)
    case Success(Some(w1)) =>
      AssignNode(w, j, version);
      match w.nodes[j].name
      case None => Success(w1)
      case Some(name) =>
        match Publish(w1, name, version)
        case Failure(e) => Failure(e)
        case Success(w2) => FrameTransitive(w, w1, w2); Success(w2)
  }

  // ---------------------------------------------------------------------------
  // Properties
  // ---------------------------------------------------------------------------

  /** The setter refuses an invalid version and one below the original, ignores the
      original and the current version, and otherwise assigns the version and marks
      the node changed (a listener of the node itself may then bump it to its target). */
  lemma SetterContract(w: World, j: nat, version: string)
    requires WellFormed(w) && j < |w.nodes|
    ensures var c := CompareText(w.nodes[j].original, version);
            && (c.None? ==> SetVersion(w, j, version) == Failure(InvalidVersion(version)))
            && (c.Some? && c.value > 0 ==>
                  SetVersion(w, j, version) == Failure(BelowOriginal(version, w.nodes[j].original)))
            && (c.Some? && c.value == 0 ==> SetVersion(w, j, version) == Success(w))
            && (c.Some? && c.value <= 0 && w.nodes[j].version == Some(version) ==>
                  SetVersion(w, j, version) == Success(w))
    ensures var r := SetVersion(w, j, version);
            r.Success? && r.value != w ==>
              && r.value.nodes[j].changed
              && (r.value.nodes[j].version == Some(version) || AtTarget(r.value.nodes[j]))
  {
    var r := SetVersion(w, j, version);
    match SetterStep(w, j, version)
    case Failure(e) =>
      assert r == Failure(e);
    case Success(None) =>
      assert r == Success(w);
    case Success(Some(w1)) =>
      AssignNode(w, j, version);
      assert w1.nodes[j].changed && w1.nodes[j].version == Some(version);
      match w.nodes[j].name
      case None =>
        assert r == Success(w1);
      case Some(name) =>
        if r.Success? {
          assert Publish(w1, name, version) == r;
          EvolvesAt(w1, r.value, j);
        }
  }

  /** A setter call that succeeds lands its node on `version` (or leaves it as it was
      when `version` has its original's precedence) and leaves every other node on its
      version or its bump target. */
  lemma SetVersionLands(w: World, j: nat, version: string)
    requires WellFormed(w) && j < |w.nodes|
    ensures var r := SetVersion(w, j, version);
            r.Success? ==> && Lands(w.nodes[j], r.value.nodes[j], version)
                           && forall i :: 0 <= i < |w.nodes| && i != j ==> Moves(w.nodes[i], r.value.nodes[i])
  {
    var r := SetVersion(w, j, version);
    match SetterStep(w, j, version)
    case Failure(e) =>
      assert r == Failure(e);
    case Success(None) =>
      assert r == Success(w);
    case Success(Some(w1)) =>
      AssignNode(w, j, version);
      assert w1.nodes[j].version == Some(version);
      assert forall i :: 0 <= i < |w.nodes| && i != j ==> w1.nodes[i] == w.nodes[i];
      match w.nodes[j].name
      case None =>
        assert r == Success(w1);
      case Some(name) =>
        if r.Success? {
          assert Publish(w1, name, version) == r;
          forall i | 0 <= i < |w.nodes|
            ensures r.value.nodes[i].version == w1.nodes[i].version || AtTarget(r.value.nodes[i])
          {
            EvolvesAt(w1, r.value, i);
          }
        }
  }

  /** A bump that succeeds leaves the node on its target. */
  lemma BumpLandsOnTarget(w: World, j: nat)
    requires WellFormed(w) && Targeted(w) && j < |w.nodes| && w.opts.bump.Some?
    requires Bump(w, j).Success?
    ensures AtTarget(Bump(w, j).value.nodes[j])
  {
    var n := w.nodes[j];
    var r := Bump(w, j);
    TargetAboveOriginal(n.original, w.opts.bump.value);
    assert n.target == BumpTarget(n.original, w.opts.bump.value);
    match SetterStep(w, j, n.target)
    case Success(None) =>
      assert r == Success(w);
    case Success(Some(w1)) =>
      SettleNode(w, j);
      assert AtTarget(w1.nodes[j]);
      match n.name
      case None =>
        assert r == Success(w1);
      case Some(name) =>
        assert Publish(w1, name, n.target) == r;
        EvolvesAt(w1, r.value, j);
  }

  /** Bumping twice is bumping once. */
  lemma BumpIdempotent(w: World, j: nat)
    requires WellFormed(w) && Targeted(w) && j < |w.nodes|
    requires Bump(w, j).Success?
    ensures Bump(Bump(w, j).value, j) == Bump(w, j)
  {
    var w' := Bump(w, j).value;
    FrameWellFormed(w, w');
    if w.opts.bump.Some? {
      BumpLandsOnTarget(w, j);
      assert SetterStep(w, j, w.nodes[j].target).Success?;
      assert SetterStep(w', j, w'.nodes[j].target) == Success(None);
    }
  }
}
