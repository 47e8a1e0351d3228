/**
 The workspaces registry: the version of every package of the workspace tree,
 in registration order, and the listeners told about each version change, in
 subscription order. Listeners are values of a type parameter; what a listener
 does is up to the caller, which receives the list to notify.
 */
module Workspaces {
  import opened Wrappers
  import opened Semver

  datatype RegistryError =
    | AlreadyRegistered(name: string)
    | NotRegistered(name: string)
    | Incomparable(version: string, current: string)
    | Downgrade(name: string, version: string, current: string)

  datatype Registry<L> = Registry(names: seq<string>, versions: map<string, string>, listeners: seq<L>)

  /** Registration order lists each registered name once. */
  predicate Valid<L>(r: Registry<L>) {
    && (forall i, j :: 0 <= i < j < |r.names| ==> r.names[i] != r.names[j])
    && r.versions.Keys == set n | n in r.names
  }

  function Empty<L>(): (r: Registry<L>)
    ensures Valid(r) && Length(r) == 0
  {
    Registry([], map[], [])
  }

  /** `has(name)`, with a registry that holds only what was registered in it. */
  predicate Has<L>(r: Registry<L>, name: string) {
    name in r.versions
  }

  /** `length`: the number of registered packages. */
  function Length<L>(r: Registry<L>): (n: nat)
    requires Valid(r)
    ensures n == |r.versions.Keys|
  {
    DistinctCard(r.names);
    |r.names|
  }

  lemma {:induction false} DistinctCard(xs: seq<string>)
    requires forall i, j :: 0 <= i < j < |xs| ==> xs[i] != xs[j]
    ensures |set n | n in xs| == |xs|
  {
    if |xs| > 0 {
      var last := xs[|xs| - 1];
      var init := xs[..|xs| - 1];
      DistinctCard(init);
      assert (set n | n in xs) == (set n | n in init) + {last};
      assert last !in init;
    }
  }

  /** The `[name, version]` pairs in registration order. */
  function Entries<L>(r: Registry<L>): (es: seq<(string, string)>)
    requires Valid(r)
    ensures |es| == Length(r)
    ensures forall k :: 0 <= k < |es| ==> es[k] == (r.names[k], r.versions[r.names[k]])
    ensures forall n :: Has(r, n) <==> exists k :: 0 <= k < |es| && es[k].0 == n
  {
    var es := seq(|r.names|, k requires 0 <= k < |r.names| => (r.names[k], r.versions[r.names[k]]));
    assert forall k :: 0 <= k < |r.names| ==> es[k].0 == r.names[k];
    es
  }

  /** `onUpdate(handler)`: one more listener, notified after the existing ones. */
  function OnUpdate<L>(r: Registry<L>, l: L): (r': Registry<L>)
    ensures r'.listeners == r.listeners + [l]
    ensures r'.names == r.names && r'.versions == r.versions
  {
    r.(listeners := r.listeners + [l])
  }

  /** The version stored for a package registered without one (or with an empty one). */
  function Stored(version: Option<string>): (s: string)
    ensures version.Some? && version.value != "" ==> s == version.value
    ensures version.None? || version.value == "" ==> s == "0.0.0"
  {
    if version.Some? && version.value != "" then version.value else "0.0.0"
  }

  /** `register(name, version)`. */
  function Register<L>(r: Registry<L>, name: string, version: Option<string>): (res: Result<Registry<L>, RegistryError>)
    requires Valid(r)
    ensures res.Failure? <==> Has(r, name)
    ensures res.Failure? ==> res.error == AlreadyRegistered(name)
    ensures res.Success? ==> && Valid(res.value)
                             && res.value.versions == r.versions[name := Stored(version)]
                             && res.value.names == r.names + [name]
                             && res.value.listeners == r.listeners
  {
    if Has(r, name) then Failure(AlreadyRegistered(name))
    else
      var r' := Registry(r.names + [name], r.versions[name := Stored(version)], r.listeners);
      assert (set n | n in r'.names) == (set n | n in r.names) + {name};
      Success(r')
  }

  /** `update(name, version)`: on success, the registry after the call and the listeners
      notified, in the order they are called. */
  function Update<L>(r: Registry<L>, name: string, version: string)
    : (res: Result<(Registry<L>, seq<L>), RegistryError>)
    ensures !Has(r, name) ==> res == Failure(NotRegistered(name))
    ensures Has(r, name) && CompareText(version, r.versions[name]).None? ==>
              res == Failure(Incomparable(version, r.versions[name]))
    ensures Has(r, name) && CompareText(version, r.versions[name]).Some? ==>
              var c := CompareText(version, r.versions[name]).value;
              && (c < 0 ==> res == Failure(Downgrade(name, version, r.versions[name])))
              && (c == 0 ==> res == Success((r, [])))
              && (c > 0 ==> res == Success((r.(versions := r.versions[name := version]), r.listeners)))
    ensures res.Success? ==> && res.value.0.names == r.names && res.value.0.listeners == r.listeners
                             && (res.value.1 == [] || res.value.1 == r.listeners)
  {
    if !Has(r, name) then Failure(NotRegistered(name))
    else
      var current := r.versions[name];
      match CompareText(version, current)
      case None => Failure(Incomparable(version, current))
      case Some(c) =>
        if c < 0 then Failure(Downgrade(name, version, current))
        else if c == 0 then Success((r, []))
        else Success((r.(versions := r.versions[name := version]), r.listeners))
  }

  // ---------------------------------------------------------------------------
  // Properties
  // ---------------------------------------------------------------------------

  /** After registering, the name is known and holds the stored version. */
  lemma RegisterThenHas<L>(r: Registry<L>, name: string, version: Option<string>, other: string)
    requires Valid(r) && Register(r, name, version).Success?
    ensures var r' := Register(r, name, version).value;
            && Has(r', name) && r'.versions[name] == Stored(version)
            && Length(r') == Length(r) + 1
            && (other != name ==> Has(r', other) == Has(r, other))
            && Register(r', name, version).Failure?
  {
  }

  /** A successful update leaves the package's version valid and no lower than before. */
  lemma UpdateNeverLowers<L>(r: Registry<L>, name: string, version: string)
    requires Update(r, name, version).Success?
    ensures var r' := Update(r, name, version).value.0;
            && CompareText(r.versions[name], r'.versions[name]).Some?
            && CompareText(r.versions[name], r'.versions[name]).value <= 0
  {
    var current := r.versions[name];
    var c := CompareText(version, current).value;
    if c == 0 {
      CompareTextReflexive(current);
    } else {
      CompareTextAntisymmetric(version, current);
    }
  }

  /** A successful update keeps the set of packages, never lowers a version, and
      touches no other package. */
  lemma UpdateMonotone<L>(r: Registry<L>, name: string, version: string, other: string)
    requires Valid(r) && Update(r, name, version).Success?
    ensures var r' := Update(r, name, version).value.0;
            && Valid(r') && r'.names == r.names && r'.listeners == r.listeners
            && (Has(r', other) <==> Has(r, other))
            && CompareText(r.versions[name], r'.versions[name]).Some?
            && CompareText(r.versions[name], r'.versions[name]).value <= 0
            && (other != name && Has(r, other) ==> r'.versions[other] == r.versions[other])
  {
    UpdateNeverLowers(r, name, version);
    UpdateShape(r, name, version);
    var r' := Update(r, name, version).value.0;
    StoreKeeps(r, r', name, version, other);
  }

  /** A successful update keeps the names and the listeners and stores at most the
      new version. */
  lemma UpdateShape<L>(r: Registry<L>, name: string, version: string)
    requires Update(r, name, version).Success?
    ensures var r' := Update(r, name, version).value.0;
            && Has(r, name) && r'.names == r.names && r'.listeners == r.listeners
            && (r'.versions == r.versions || r'.versions == r.versions[name := version])
  {
  }

  /** Storing a version for a registered name keeps the registry valid and every other
      package as it was. */
  lemma StoreKeeps<L>(r: Registry<L>, r': Registry<L>, name: string, version: string, other: string)
    requires Valid(r) && Has(r, name)
    requires r'.names == r.names && r'.listeners == r.listeners
    requires r'.versions == r.versions || r'.versions == r.versions[name := version]
    ensures Valid(r') && (Has(r', other) <==> Has(r, other))
    ensures other != name && Has(r, other) ==> r'.versions[other] == r.versions[other]
  {
  }

  /** Each listener is notified at most once per update, and all of them are notified
      exactly when the stored version changes. */
  lemma UpdateNotifiesOnce<L>(r: Registry<L>, name: string, version: string)
    requires Update(r, name, version).Success?
    ensures var (r', notified) := Update(r, name, version).value;
            || (notified == [] && r' == r)
            || (notified == r.listeners && r'.versions[name] == version && r.versions[name] != version)
  {
    CompareTextReflexive(version);
  }

  /** Repeating an update is a no-op that notifies nobody. */
  lemma UpdateIdempotent<L>(r: Registry<L>, name: string, version: string)
    requires Update(r, name, version).Success?
    ensures var r' := Update(r, name, version).value.0;
            Update(r', name, version) == Success((r', []))
  {
    CompareTextReflexive(version);
  }

  // ---------------------------------------------------------------------------
  // The registry as written: a plain object probed with `!!obj[name]`
  // ---------------------------------------------------------------------------

  /** Names that a plain JavaScript object answers for through its prototype. */
  const InheritedKeys: set<string> := {
    "constructor", "__proto__", "hasOwnProperty", "isPrototypeOf", "propertyIsEnumerable",
    "toString", "toLocaleString", "valueOf", "__defineGetter__", "__defineSetter__",
    "__lookupGetter__", "__lookupSetter__"
  }

  /** `has(name)` as written: stored versions are never empty, so a name answers
      truthy exactly when it was registered or is inherited from the prototype. */
  predicate HasAsWritten<L>(r: Registry<L>, name: string) {
    name in r.versions || name in InheritedKeys
  }

  /** `register` as written, with the same truthiness test. */
  function RegisterAsWritten<L>(r: Registry<L>, name: string, version: Option<string>)
    : (res: Result<Registry<L>, RegistryError>)
    requires Valid(r)
    ensures name in InheritedKeys ==> res.Failure?
    ensures name !in InheritedKeys ==> res == Register(r, name, version)
  {
    if HasAsWritten(r, name) then Failure(AlreadyRegistered(name))
    else Register(r, name, version)
  }

  /** `constructor`, a valid package name, is reported as registered in an empty
      registry, and a workspace package of that name cannot be registered at all. */
  lemma InheritedKeyCounterexample()
    ensures HasAsWritten(Empty<nat>(), "constructor")
    ensures !Has(Empty<nat>(), "constructor")
    ensures RegisterAsWritten(Empty<nat>(), "constructor", None).Failure?
    ensures Register(Empty<nat>(), "constructor", None).Success?
  {
  }

  /** The two tests agree on every name a plain object does not inherit. */
  lemma HasAgreesOffPrototype<L>(r: Registry<L>, name: string)
    requires name !in InheritedKeys
    ensures HasAsWritten(r, name) <==> Has(r, name)
  {
  }
}
