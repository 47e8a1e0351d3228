/**
 The state of a tree of updaters after `init`: one node per package file, held in a
 flat sequence in construction order (so a node's children come after it), the
 shared workspaces registry whose listeners are node indices, the shared version
 cache, and the options every node was built with.
 */
module Nodes {
  import opened Wrappers
  import opened Semver
  import opened Catalog
  import opened Workspaces

  /** The four dependency groups of a package file. */
  datatype Group = Dependencies | DevDependencies | PeerDependencies | OptionalDependencies

  /** `dependencyTypes`: the order in which the listener and `write` visit the groups. */
  const DependencyTypes: seq<Group> := [Dependencies, DevDependencies, PeerDependencies, OptionalDependencies]

  /** A dependency group: `[name, range]` pairs in object order. */
  type Deps = seq<(string, string)>

  datatype Options = Options(bump: Option<Level>, quick: bool, strict: bool)

  /** One updater: `name` is the package name when it is truthy, `original` the version
      read at `init` (or `0.0.0`), `target` the version a bump sets (a function of
      `original` and the options, both fixed at `init`), `config` the parsed `.npmrc`;
      `version`, `groups` and `changed` are the parts of the package data the updater
      rewrites. */
  datatype Node = Node(name: Option<string>, original: string, target: string, children: seq<nat>,
                       config: Config, version: Option<string>, groups: map<Group, Deps>, changed: bool)

  datatype World = World(nodes: seq<Node>, reg: Registry<nat>, cache: Cache, opts: Options)

  /** Children come after their parent, and every listener is a node. */
  predicate WellFormed(w: World) {
    && (forall i, k :: 0 <= i < |w.nodes| && 0 <= k < |w.nodes[i].children| ==>
          i < w.nodes[i].children[k] < |w.nodes|)
    && (forall k :: 0 <= k < |w.reg.listeners| ==> w.reg.listeners[k] < |w.nodes|)
  }

  datatype UpdaterError =
    | InvalidVersion(version: string)
    | BelowOriginal(version: string, original: string)
    | RegistryFailed(registryError: RegistryError)
    | UnsupportedRange(name: string, declared: string)
    | FetchFailed(name: string, fetchError: FetchError)

  // ---------------------------------------------------------------------------
  // Bump targets and the pending measure
  // ---------------------------------------------------------------------------

  /** `semver.inc(original, level) || original`. */
  function BumpTarget(original: string, level: Level): (t: string)
    ensures Parse(original).None? ==> t == original
    ensures Parse(original).Some? ==> t == Format(Inc(Parse(original).value, level))
  {
    match Parse(original)
    case None => original
    case Some(v) => Format(Inc(v, level))
  }

  /** The version a bump of a node read at `original` lands on. */
  function Target(opts: Options, original: string): string {
    match opts.bump
    case None => original
    case Some(level) => BumpTarget(original, level)
  }

  predicate AtTarget(n: Node) {
    n.version == Some(n.target)
  }

  /** Where a successful setter call with `version` takes node `n` to `n'`: onto that
      version, onto its bump target (a listener bumped it), or nowhere, keeping the
      version it had, because `version` has its original's precedence. */
  predicate Lands(n: Node, n': Node, version: string) {
    || n'.version == Some(version)
    || AtTarget(n')
    || (&& CompareText(n.original, version).Some? && CompareText(n.original, version).value == 0
        && n'.version == n.version)
  }

  /** What a setter call may do to any other node: keep its version or bump it. */
  predicate Moves(n: Node, n': Node) {
    n'.version == n.version || AtTarget(n')
  }

  /** A landing followed by a landing or a move, or a move followed by a landing, is a
      landing, as long as the original and the target stay put. */
  lemma LandsCompose(n0: Node, n1: Node, n2: Node, version: string)
    requires n1.original == n0.original && n2.target == n1.target
    requires || (Lands(n0, n1, version) && (Lands(n1, n2, version) || Moves(n1, n2)))
             || (Moves(n0, n1) && Lands(n1, n2, version))
    ensures Lands(n0, n2, version)
  {
  }

  /** Every node's target is the one its original version and the options give. */
  predicate Targeted(w: World) {
    forall i :: 0 <= i < |w.nodes| ==> w.nodes[i].target == Target(w.opts, w.nodes[i].original)
  }

  /** The nodes whose version is not yet their bump target. */
  function PendingSet(w: World): set<nat> {
    set i | 0 <= i < |w.nodes| && !AtTarget(w.nodes[i])
  }

  function Pending(w: World): nat {
    |PendingSet(w)|
  }

  // ---------------------------------------------------------------------------
  // What the cascade may change
  // ---------------------------------------------------------------------------

  /** Everything fixed at `init` is kept: the tree, the names, the original versions,
      the configuration, the options and the listener list. */
  predicate Frame(w: World, w': World) {
    && |w'.nodes| == |w.nodes|
    && w'.opts == w.opts
    && w'.reg.listeners == w.reg.listeners
    && w'.reg.names == w.reg.names
    && forall i :: 0 <= i < |w.nodes| ==>
         && w'.nodes[i].name == w.nodes[i].name
         && w'.nodes[i].original == w.nodes[i].original
         && w'.nodes[i].target == w.nodes[i].target
         && w'.nodes[i].children == w.nodes[i].children
         && w'.nodes[i].config == w.nodes[i].config
  }

  /** The same names in the same order in every group. */
  predicate SameKeys(g: map<Group, Deps>, g': map<Group, Deps>) {
    && g'.Keys == g.Keys
    && forall t :: t in g ==> |g'[t]| == |g[t]| && forall k :: 0 <= k < |g[t]| ==> g'[t][k].0 == g[t][k].0
  }

  /** One node's move: its version stays or lands on its bump target, its changed flag
      is never cleared, and its groups keep their names. */
  predicate NodeStep(n: Node, n': Node) {
    && (n'.version == n.version || AtTarget(n'))
    && (n.changed ==> n'.changed)
    && SameKeys(n.groups, n'.groups)
  }

  /** What the setter, the listener and a bump may do to the world. */
  predicate Evolves(w: World, w': World) {
    && Frame(w, w')
    && w'.cache == w.cache
    && forall i :: 0 <= i < |w.nodes| ==> NodeStep(w.nodes[i], w'.nodes[i])
  }

  lemma FrameWellFormed(w: World, w': World)
    requires WellFormed(w) && Frame(w, w')
    ensures WellFormed(w')
  {
  }

  lemma FrameTargeted(w: World, w': World)
    requires Targeted(w) && Frame(w, w')
    ensures Targeted(w')
  {
  }

  /** What an evolution does to one node. */
  lemma EvolvesAt(w: World, w': World, j: nat)
    requires Evolves(w, w') && j < |w.nodes|
    ensures w'.nodes[j].version == w.nodes[j].version || AtTarget(w'.nodes[j])
    ensures w.nodes[j].changed ==> w'.nodes[j].changed
  {
    assert NodeStep(w.nodes[j], w'.nodes[j]);
  }

  lemma EvolvesReflexive(w: World)
    ensures Evolves(w, w)
  {
  }

  lemma EvolvesTransitive(a: World, b: World, c: World)
    requires Evolves(a, b) && Evolves(b, c)
    ensures Evolves(a, c)
  {
    forall i | 0 <= i < |a.nodes|
      ensures NodeStep(a.nodes[i], c.nodes[i])
    {
    }
  }

  /** Moves of this kind never add pending nodes. */
  lemma EvolvesPending(w: World, w': World)
    requires Evolves(w, w')
    ensures PendingSet(w') <= PendingSet(w)
    ensures Pending(w') <= Pending(w)
  {
    forall i | i in PendingSet(w')
      ensures i in PendingSet(w)
    {
    }
    SubsetCard(PendingSet(w'), PendingSet(w));
  }

  lemma SubsetCard(a: set<nat>, b: set<nat>)
    requires a <= b
    ensures |a| <= |b|
  {
    assert b == a + (b - a);
  }

  // ---------------------------------------------------------------------------
  // Node updates
  // ---------------------------------------------------------------------------

  function SetNode(w: World, j: nat, n: Node): (w': World)
    requires j < |w.nodes|
    ensures |w'.nodes| == |w.nodes| && w'.nodes[j] == n
    ensures forall i :: 0 <= i < |w.nodes| && i != j ==> w'.nodes[i] == w.nodes[i]
    ensures w'.reg == w.reg && w'.cache == w.cache && w'.opts == w.opts
  {
    w.(nodes := w.nodes[j := n])
  }

  /** Setting a pending node to its target removes it, and only it, from the pending set. */
  lemma SettlePending(w: World, j: nat, w': World)
    requires j < |w.nodes| && !AtTarget(w.nodes[j])
    requires Evolves(w, w') && AtTarget(w'.nodes[j])
    ensures Pending(w') < Pending(w)
  {
    EvolvesPending(w, w');
    assert j in PendingSet(w) && j !in PendingSet(w');
    ProperSubsetCard(PendingSet(w'), PendingSet(w), j);
  }

  /** A move that keeps every version, original and the options keeps the pending set. */
  lemma PendingKept(w: World, w': World)
    requires |w'.nodes| == |w.nodes| && w'.opts == w.opts
    requires forall i :: 0 <= i < |w.nodes| ==>
               w'.nodes[i].version == w.nodes[i].version && w'.nodes[i].target == w.nodes[i].target
    ensures PendingSet(w') == PendingSet(w) && Pending(w') == Pending(w)
  {
  }

  lemma ProperSubsetCard(a: set<nat>, b: set<nat>, x: nat)
    requires a <= b && x in b && x !in a
    ensures |a| < |b|
  {
    assert a <= b - {x};
    SubsetCard(a, b - {x});
  }

  /** The setter's assignment of a pending node's target settles that node. */
  lemma SettleNode(w: World, j: nat)
    requires WellFormed(w) && j < |w.nodes| && !AtTarget(w.nodes[j])
    ensures var w' := SetNode(w, j, w.nodes[j].(version := Some(w.nodes[j].target), changed := true));
            Evolves(w, w') && Pending(w') < Pending(w) && WellFormed(w')
  {
    var w' := SetNode(w, j, w.nodes[j].(version := Some(w.nodes[j].target), changed := true));
    assert Evolves(w, w');
    SettlePending(w, j, w');
    FrameWellFormed(w, w');
  }

  /** The listener's rewrite of one group keeps every name and every version. */
  lemma RegroupNode(w: World, j: nat, t: Group, deps: Deps)
    requires WellFormed(w) && j < |w.nodes| && t in w.nodes[j].groups
    requires |deps| == |w.nodes[j].groups[t]|
    requires forall k :: 0 <= k < |deps| ==> deps[k].0 == w.nodes[j].groups[t][k].0
    ensures var w' := SetNode(w, j, w.nodes[j].(groups := w.nodes[j].groups[t := deps], changed := true));
            Evolves(w, w') && Pending(w') == Pending(w) && WellFormed(w')
  {
    var w' := SetNode(w, j, w.nodes[j].(groups := w.nodes[j].groups[t := deps], changed := true));
    assert Evolves(w, w');
    PendingKept(w, w');
    FrameWellFormed(w, w');
  }

  /** A registry update that keeps the names and the listeners moves nothing else. */
  lemma ReplaceRegistry(w: World, reg: Registry<nat>)
    requires WellFormed(w) && reg.names == w.reg.names && reg.listeners == w.reg.listeners
    ensures Evolves(w, w.(reg := reg)) && Pending(w.(reg := reg)) == Pending(w) && WellFormed(w.(reg := reg))
  {
    PendingKept(w, w.(reg := reg));
  }

  /** The setter's assignment of any version keeps the frame. */
  lemma AssignNode(w: World, j: nat, version: string)
    requires WellFormed(w) && j < |w.nodes|
    ensures var w' := SetNode(w, j, w.nodes[j].(version := Some(version), changed := true));
            Frame(w, w') && w'.cache == w.cache && WellFormed(w')
  {
    var w' := SetNode(w, j, w.nodes[j].(version := Some(version), changed := true));
    FrameWellFormed(w, w');
  }

  lemma FrameTransitive(a: World, b: World, c: World)
    requires WellFormed(a) && Frame(a, b) && Frame(b, c)
    ensures Frame(a, c) && WellFormed(c)
  {
  }
}
