/**
 The version catalog: for a package name, the published versions that are not
 deprecated, that are valid, and (unless asked for) that are not pre-releases,
 newest first; memoised per key so that one fetch serves every later request.
 The network fetch is a parameter.
 */
module Catalog {
  import opened Wrappers
  import opened Text
  import opened Semver
  import opened Ranges

  /** One entry of the `versions` object of a registry document: the version string
      (the key) and whether its metadata carries a truthy `deprecated`. */
  datatype Published = Published(version: string, deprecated: bool)

  datatype FetchError = FetchError(reason: string)

  /** The registry configuration, handed to the fetch and otherwise never read. */
  type Config = map<string, string>

  /** The registry fetch: the published versions of a package, in document order. */
  type Fetch = (string, Config) -> Result<seq<Published>, FetchError>

  /** The settled value of a cached promise. */
  type Outcome = Result<seq<string>, FetchError>

  // ---------------------------------------------------------------------------
  // Keys
  // ---------------------------------------------------------------------------

  /** The cache key: the name, with `+prerelease` appended when pre-releases are wanted. */
  function Key(name: string, includePrerelease: bool): (k: string)
    ensures includePrerelease ==> k == name + "+prerelease"
    ensures !includePrerelease ==> k == name
  {
    if includePrerelease then name + "+prerelease" else name
  }

  /** For names without `+` (no valid package name has one) the key determines both
      the name and the flag, so two requests share an entry only if they ask for the
      same thing. */
  lemma KeyInjective(n1: string, p1: bool, n2: string, p2: bool)
    requires '+' !in n1 && '+' !in n2
    requires Key(n1, p1) == Key(n2, p2)
    ensures n1 == n2 && p1 == p2
  {
    var k := Key(n1, p1);
    if p1 && p2 {
      assert n1 == k[..|n1|] && n2 == k[..|n2|];
    }
  }

  /** A name that does contain `+` can collide: `a+prerelease` without the flag and `a`
      with it read the same entry. */
  lemma KeyCollision()
    ensures Key("a+prerelease", false) == Key("a", true)
  {
  }

  // ---------------------------------------------------------------------------
  // The filter and sort pipeline
  // ---------------------------------------------------------------------------

  /** `>=0.0.0`. */
  function AnyVersion(): Window {
    Window(Zero(), None)
  }

  /** Whether an entry survives the filters: not deprecated (when that filter applies),
      a valid version, and inside `>=0.0.0` under the given pre-release option. */
  predicate Kept(e: Published, includePrerelease: bool, dropDeprecated: bool) {
    && !(dropDeprecated && e.deprecated)
    && TestText(AnyVersion(), e.version, includePrerelease)
  }

  /** A kept version together with its parsed form. */
  datatype Candidate = Candidate(text: string, version: Version)

  predicate Faithful(c: Candidate) {
    Parse(c.text) == Some(c.version)
  }

  function Texts(cs: seq<Candidate>): (r: seq<string>)
    ensures |r| == |cs|
    ensures forall k :: 0 <= k < |cs| ==> r[k] == cs[k].text
  {
    if |cs| == 0 then [] else [cs[0].text] + Texts(cs[1..])
  }

  /** Whether some entry offers `v` and survives the filters. */
  predicate Offers(entries: seq<Published>, v: string, includePrerelease: bool, dropDeprecated: bool) {
    exists k :: 0 <= k < |entries| && entries[k].version == v && Kept(entries[k], includePrerelease, dropDeprecated)
  }

  /** The entries that pass the filters, in document order. */
  function Candidates(entries: seq<Published>, includePrerelease: bool, dropDeprecated: bool)
    : (r: seq<Candidate>)
    ensures forall k :: 0 <= k < |r| ==> Faithful(r[k])
  {
    if |entries| == 0 then []
    else
      var rest := Candidates(entries[1..], includePrerelease, dropDeprecated);
      var e := entries[0];
      if Kept(e, includePrerelease, dropDeprecated) then
        [Candidate(e.version, Parse(e.version).value)] + rest
      else rest
  }

  /** The candidates are exactly the entries that pass the filters. */
  lemma {:induction false} CandidatesMembership(entries: seq<Published>, includePrerelease: bool,
                                                dropDeprecated: bool, v: string)
    ensures v in Texts(Candidates(entries, includePrerelease, dropDeprecated))
        <==> Offers(entries, v, includePrerelease, dropDeprecated)
  {
    if |entries| > 0 {
      var e := entries[0];
      var rest := Candidates(entries[1..], includePrerelease, dropDeprecated);
      CandidatesMembership(entries[1..], includePrerelease, dropDeprecated, v);
      OffersCons(entries, v, includePrerelease, dropDeprecated);
      if Kept(e, includePrerelease, dropDeprecated) {
        var c := Candidate(e.version, Parse(e.version).value);
        assert Texts([c] + rest) == [e.version] + Texts(rest);
      }
    }
  }

  /** An entry is offered by the head or by the rest of the list. */
  lemma OffersCons(entries: seq<Published>, v: string, includePrerelease: bool, dropDeprecated: bool)
    requires |entries| > 0
    ensures Offers(entries, v, includePrerelease, dropDeprecated) <==>
              || (entries[0].version == v && Kept(entries[0], includePrerelease, dropDeprecated))
              || Offers(entries[1..], v, includePrerelease, dropDeprecated)
  {
    if Offers(entries[1..], v, includePrerelease, dropDeprecated) {
      var k :| 0 <= k < |entries[1..]| && entries[1..][k].version == v
               && Kept(entries[1..][k], includePrerelease, dropDeprecated);
      assert entries[k + 1] == entries[1..][k];
    }
    if Offers(entries, v, includePrerelease, dropDeprecated) {
      var k :| 0 <= k < |entries| && entries[k].version == v && Kept(entries[k], includePrerelease, dropDeprecated);
      if k > 0 {
        assert entries[1..][k - 1] == entries[k];
      }
    }
  }

  predicate SortedCandidates(cs: seq<Candidate>) {
    forall i, j :: 0 <= i < j < |cs| ==> Le(cs[j].version, cs[i].version)
  }

  /** Inserts `c` before the first candidate of equal or lower precedence. The
      sort inserts each candidate into the sorted rest of the list, so a candidate
      lands before the later candidates of the same version: ties keep their
      document order. */
  function Insert(c: Candidate, cs: seq<Candidate>): (r: seq<Candidate>)
    requires SortedCandidates(cs)
    ensures SortedCandidates(r)
    ensures multiset(r) == multiset(cs) + multiset{c}
  {
    if |cs| == 0 then [c]
    else if Le(cs[0].version, c.version) then
      forall k | 0 <= k < |cs|
        ensures Le(cs[k].version, c.version)
      {
        if k > 0 { CompareTransitive(cs[k].version, cs[0].version, c.version); }
      }
      [c] + cs
    else
      var tail := Insert(c, cs[1..]);
      assert cs == [cs[0]] + cs[1..];
      CompareAntisymmetric(cs[0].version, c.version);
      forall k | 0 <= k < |tail|
        ensures Le(tail[k].version, cs[0].version)
      {
        assert tail[k] in multiset(cs[1..]) + multiset{c};
        if tail[k] != c {
          assert tail[k] in cs[1..];
          var m :| 0 <= m < |cs[1..]| && cs[1..][m] == tail[k];
          assert cs[m + 1] == tail[k];
        }
      }
      [cs[0]] + tail
  }

  /** The candidates of version `v`, in list order. */
  function Tied(cs: seq<Candidate>, v: Version): seq<Candidate> {
    if |cs| == 0 then []
    else (if cs[0].version == v then [cs[0]] else []) + Tied(cs[1..], v)
  }

  /** Inserting `c` puts it ahead of every candidate of its own version and leaves
      the order of the others of that version alone. */
  lemma {:induction false} InsertTied(c: Candidate, cs: seq<Candidate>, v: Version)
    requires SortedCandidates(cs)
    ensures Tied(Insert(c, cs), v) == (if c.version == v then [c] else []) + Tied(cs, v)
  {
    if |cs| == 0 {
      assert Insert(c, cs) == [c] + cs;
      TiedCons(c, cs, v);
    } else if Le(cs[0].version, c.version) {
      assert Insert(c, cs) == [c] + cs;
      TiedCons(c, cs, v);
    } else {
      var tail := Insert(c, cs[1..]);
      assert Insert(c, cs) == [cs[0]] + tail;
      InsertTied(c, cs[1..], v);
      TiedCons(cs[0], tail, v);
      assert cs == [cs[0]] + cs[1..];
      TiedCons(cs[0], cs[1..], v);
      CompareZero(cs[0].version, c.version);
      if c.version == v {
        assert cs[0].version != v;
      }
    }
  }

  lemma TiedCons(c: Candidate, cs: seq<Candidate>, v: Version)
    ensures Tied([c] + cs, v) == (if c.version == v then [c] else []) + Tied(cs, v)
  {
    assert ([c] + cs)[1..] == cs;
  }

  /** The insertion sort by descending precedence (`sort(semver.rcompare)`, a stable
      sort): a permutation, newest first, with equal versions in their original order. */
  function Sort(cs: seq<Candidate>): (r: seq<Candidate>)
    ensures SortedCandidates(r)
    ensures multiset(r) == multiset(cs)
    ensures forall v :: Tied(r, v) == Tied(cs, v)
  {
    if |cs| == 0 then []
    else
      assert cs == [cs[0]] + cs[1..];
      var rest := Sort(cs[1..]);
      forall v
        ensures Tied(Insert(cs[0], rest), v) == Tied(cs, v)
      {
        InsertTied(cs[0], rest, v);
      }
      Insert(cs[0], rest)
  }

  /** The texts among `xs` that parse to `v`, in list order. */
  function TiedTexts(xs: seq<string>, v: Version): seq<string> {
    if |xs| == 0 then []
    else (if Parse(xs[0]) == Some(v) then [xs[0]] else []) + TiedTexts(xs[1..], v)
  }

  /** The versions of the entries that pass the filters, in document order. */
  function Listed(entries: seq<Published>, includePrerelease: bool, dropDeprecated: bool): seq<string> {
    if |entries| == 0 then []
    else
      (if Kept(entries[0], includePrerelease, dropDeprecated) then [entries[0].version] else [])
      + Listed(entries[1..], includePrerelease, dropDeprecated)
  }

  lemma TextsCons(c: Candidate, cs: seq<Candidate>)
    ensures Texts([c] + cs) == [c.text] + Texts(cs)
  {
    assert ([c] + cs)[1..] == cs;
  }

  lemma {:induction false} ListedTexts(entries: seq<Published>, includePrerelease: bool, dropDeprecated: bool)
    ensures Texts(Candidates(entries, includePrerelease, dropDeprecated))
         == Listed(entries, includePrerelease, dropDeprecated)
  {
    if |entries| > 0 {
      ListedTexts(entries[1..], includePrerelease, dropDeprecated);
      var e := entries[0];
      if Kept(e, includePrerelease, dropDeprecated) {
        TextsCons(Candidate(e.version, Parse(e.version).value),
                  Candidates(entries[1..], includePrerelease, dropDeprecated));
      }
    }
  }

  lemma {:induction false} TiedTextsOf(cs: seq<Candidate>, v: Version)
    requires forall k :: 0 <= k < |cs| ==> Faithful(cs[k])
    ensures TiedTexts(Texts(cs), v) == Texts(Tied(cs, v))
  {
    if |cs| > 0 {
      var c := cs[0];
      var ts := Texts(cs);
      TiedTextsOf(cs[1..], v);
      assert ts[0] == c.text && ts[1..] == Texts(cs[1..]);
      assert Faithful(c);
      assert Parse(ts[0]) == Some(v) <==> c.version == v;
      var rest := Tied(cs[1..], v);
      assert Tied(cs, v) == (if c.version == v then [c] else []) + rest;
      assert TiedTexts(ts, v) == (if c.version == v then [c.text] else []) + TiedTexts(ts[1..], v);
      if c.version == v {
        TextsCons(c, rest);
      }
    }
  }

  lemma TextsMembership(cs: seq<Candidate>, v: string)
    ensures v in Texts(cs) <==> exists c :: c in cs && c.text == v
  {
    if v in Texts(cs) {
      var k :| 0 <= k < |cs| && Texts(cs)[k] == v;
      assert cs[k] in cs;
    }
  }

  /** Sorting keeps every candidate, so the texts are the same set. */
  lemma SortKeepsTexts(cs: seq<Candidate>, v: string)
    ensures v in Texts(Sort(cs)) <==> v in Texts(cs)
  {
    var sorted := Sort(cs);
    TextsMembership(sorted, v);
    TextsMembership(cs, v);
    if v in Texts(sorted) {
      var c :| c in sorted && c.text == v;
      assert c in multiset(cs);
    }
    if v in Texts(cs) {
      var c :| c in cs && c.text == v;
      assert c in multiset(sorted);
    }
  }

  /** The texts of faithful candidates sorted by version are sorted by precedence. */
  lemma SortedTexts(cs: seq<Candidate>)
    requires SortedCandidates(cs)
    requires forall k :: 0 <= k < |cs| ==> Faithful(cs[k])
    ensures SortedDescending(Texts(cs))
  {
  }

  lemma SortFaithful(cs: seq<Candidate>)
    requires forall k :: 0 <= k < |cs| ==> Faithful(cs[k])
    ensures forall k :: 0 <= k < |Sort(cs)| ==> Faithful(Sort(cs)[k])
  {
    var sorted := Sort(cs);
    forall k | 0 <= k < |sorted|
      ensures Faithful(sorted[k])
    {
      assert sorted[k] in multiset(cs);
    }
  }

  /** Without pre-releases, `>=0.0.0` only admits stable versions. */
  lemma KeptStable(v: string)
    requires TestText(AnyVersion(), v, false)
    ensures IsStable(Parse(v).value)
  {
  }

  /** The pipeline of `getVersions`: filter, parse, sort newest first. */
  function Select(entries: seq<Published>, includePrerelease: bool, dropDeprecated: bool)
    : (r: seq<string>)
    ensures SortedDescending(r)
    ensures forall v :: v in r <==> Offers(entries, v, includePrerelease, dropDeprecated)
    ensures !includePrerelease ==> forall k :: 0 <= k < |r| ==> IsStable(Parse(r[k]).value)
    ensures forall v :: TiedTexts(r, v) == TiedTexts(Listed(entries, includePrerelease, dropDeprecated), v)
  {
    var cs := Candidates(entries, includePrerelease, dropDeprecated);
    var r := Texts(Sort(cs));
    SortFaithful(cs);
    SortedTexts(Sort(cs));
    ListedTexts(entries, includePrerelease, dropDeprecated);
    forall v
      ensures TiedTexts(r, v) == TiedTexts(Listed(entries, includePrerelease, dropDeprecated), v)
    {
      TiedTextsOf(Sort(cs), v);
      TiedTextsOf(cs, v);
    }
    forall v
      ensures v in r <==> Offers(entries, v, includePrerelease, dropDeprecated)
    {
      SortKeepsTexts(cs, v);
      CandidatesMembership(entries, includePrerelease, dropDeprecated, v);
    }
    forall k | 0 <= k < |r| && !includePrerelease
      ensures IsStable(Parse(r[k]).value)
    {
      assert r[k] in r;
      var m :| 0 <= m < |entries| && entries[m].version == r[k] && Kept(entries[m], includePrerelease, dropDeprecated);
      KeptStable(r[k]);
    }
    r
  }

  /** The entries that are not deprecated, in document order. */
  function Live(entries: seq<Published>): (r: seq<Published>)
    ensures forall k :: 0 <= k < |r| ==> !r[k].deprecated
    ensures (forall k :: 0 <= k < |entries| ==> !entries[k].deprecated) ==> r == entries
  {
    if |entries| == 0 then []
    else (if entries[0].deprecated then [] else [entries[0]]) + Live(entries[1..])
  }

  /** Dropping deprecated versions is the same as running the pipeline without that
      filter on the entries that are not deprecated. */
  lemma {:induction false} CandidatesLive(entries: seq<Published>, includePrerelease: bool)
    ensures Candidates(entries, includePrerelease, true) == Candidates(Live(entries), includePrerelease, false)
  {
    if |entries| > 0 {
      CandidatesLive(entries[1..], includePrerelease);
      var live := Live(entries);
      if !entries[0].deprecated {
        assert live == [entries[0]] + Live(entries[1..]);
        assert live[0] == entries[0] && live[1..] == Live(entries[1..]);
      } else {
        assert live == Live(entries[1..]);
      }
    }
  }

  /** The settled value of one fetch, passed through the pipeline. */
  function Settle(fetched: Result<seq<Published>, FetchError>, includePrerelease: bool,
                  dropDeprecated: bool): (r: Outcome)
    ensures r.Failure? <==> fetched.Failure?
    ensures r.Success? ==> r.value == Select(fetched.value, includePrerelease, dropDeprecated)
    ensures r.Success? ==> && SortedDescending(r.value)
                           && (forall v :: v in r.value <==> Offers(fetched.value, v, includePrerelease, dropDeprecated))
                           && forall v :: TiedTexts(r.value, v)
                                          == TiedTexts(Listed(fetched.value, includePrerelease, dropDeprecated), v)
  {
    match fetched
    case Success(entries) => Success(Select(entries, includePrerelease, dropDeprecated))
    case Failure(e) => Failure(e)
  }

  // ---------------------------------------------------------------------------
  // The cache
  // ---------------------------------------------------------------------------

  /** The cache: one settled outcome per key, and the keys in the order they were
      fetched (one entry per fetch issued). */
  datatype Cache = Cache(entries: map<string, Outcome>, fetched: seq<string>)

  function Empty(): Cache {
    Cache(map[], [])
  }

  predicate Distinct(xs: seq<string>) {
    forall i, j :: 0 <= i < j < |xs| ==> xs[i] != xs[j]
  }

  /** Every key was fetched exactly once. */
  predicate Valid(c: Cache) {
    Distinct(c.fetched) && c.entries.Keys == set k | k in c.fetched
  }

  /** The memo step shared by both catalog variants: a stored outcome is returned as
      is (a failed one included), otherwise one fetch is issued and its outcome stored. */
  function Memo(c: Cache, key: string, fetch: Fetch, name: string, config: Config,
                includePrerelease: bool, dropDeprecated: bool): (r: (Cache, Outcome))
    ensures Valid(c) ==> Valid(r.0)
    ensures key in c.entries ==> r == (c, c.entries[key])
    ensures key !in c.entries ==> && r.0.fetched == c.fetched + [key]
                                  && r.0.entries == c.entries[key := r.1]
                                  && r.1 == Settle(fetch(name, config), includePrerelease, dropDeprecated)
  {
    if key in c.entries then (c, c.entries[key])
    else
      var outcome := Settle(fetch(name, config), includePrerelease, dropDeprecated);
      var c' := Cache(c.entries[key := outcome], c.fetched + [key]);
      assert Valid(c) ==> Distinct(c'.fetched);
      (c', outcome)
  }

  /** `VersionsCache.getVersions(name, npmrc, includePrerelease)`. */
  function GetVersions(c: Cache, fetch: Fetch, name: string, config: Config, includePrerelease: bool)
    : (r: (Cache, Outcome))
    requires Valid(c) && WellSorted(c)
    ensures Valid(r.0) && WellSorted(r.0)
    ensures Key(name, includePrerelease) in r.0.entries
    ensures r.1 == r.0.entries[Key(name, includePrerelease)]
    ensures forall k :: k in c.entries ==> k in r.0.entries && r.0.entries[k] == c.entries[k]
    ensures |r.0.fetched| <= |c.fetched| + 1
    ensures Key(name, includePrerelease) in c.entries ==> r.0 == c
    ensures r.1.Success? ==> SortedDescending(r.1.value)
    ensures Key(name, includePrerelease) !in c.entries ==>
              && |r.0.fetched| == |c.fetched| + 1
              && (r.1.Failure? <==> fetch(name, config).Failure?)
              && (r.1.Success? ==> forall v :: v in r.1.value <==>
                    exists k :: 0 <= k < |fetch(name, config).value| && fetch(name, config).value[k].version == v
                                && !fetch(name, config).value[k].deprecated
                                && TestText(AnyVersion(), v, includePrerelease))
  {
    Memo(c, Key(name, includePrerelease), fetch, name, config, includePrerelease, true)
  }

  /** Asking again returns the stored outcome and issues no fetch, whatever the fetch
      function and configuration of the later request. */
  lemma GetVersionsMemoised(c: Cache, fetch: Fetch, fetch': Fetch, name: string,
                            config: Config, config': Config, includePrerelease: bool)
    requires Valid(c) && WellSorted(c)
    ensures var (c1, r1) := GetVersions(c, fetch, name, config, includePrerelease);
            GetVersions(c1, fetch', name, config', includePrerelease) == (c1, r1)
  {
  }

  /** A request as the updater issues it. */
  datatype Request = Request(name: string, config: Config, includePrerelease: bool)

  predicate WellSorted(c: Cache) {
    forall k :: k in c.entries && c.entries[k].Success? ==> SortedDescending(c.entries[k].value)
  }

  /** The cache invariants every catalog read keeps. */
  predicate Ready(c: Cache) {
    Valid(c) && WellSorted(c)
  }

  /** Every outcome already stored in `c` is still stored, unchanged, in `c'`. */
  predicate Grows(c: Cache, c': Cache) {
    forall k :: k in c.entries ==> k in c'.entries && c'.entries[k] == c.entries[k]
  }

  lemma GrowsTransitive(a: Cache, b: Cache, c: Cache)
    requires Grows(a, b) && Grows(b, c)
    ensures Grows(a, c)
  {
  }

  /** Serves the requests in order, threading the cache. */
  function GetAll(c: Cache, fetch: Fetch, requests: seq<Request>): (r: Cache)
    requires Valid(c) && WellSorted(c)
    ensures Valid(r) && WellSorted(r)
    decreases |requests|
  {
    if |requests| == 0 then c
    else
      var q := requests[0];
      var (c1, _) := GetVersions(c, fetch, q.name, q.config, q.includePrerelease);
      GetAll(c1, fetch, requests[1..])
  }

  /** One fetch per key: after any sequence of requests, the keys fetched are exactly the
      keys held before plus the keys requested, each fetched once. */
  lemma {:induction false} OneFetchPerKey(c: Cache, fetch: Fetch, requests: seq<Request>)
    requires Valid(c) && WellSorted(c)
    ensures var r := GetAll(c, fetch, requests);
            && Distinct(r.fetched)
            && forall k :: k in r.fetched <==>
                 (k in c.fetched || exists q :: q in requests && Key(q.name, q.includePrerelease) == k)
    decreases |requests|
  {
    if |requests| > 0 {
      var q := requests[0];
      var (c1, _) := GetVersions(c, fetch, q.name, q.config, q.includePrerelease);
      OneFetchPerKey(c1, fetch, requests[1..]);
      forall k
        ensures (k in c1.fetched || exists q' :: q' in requests[1..] && Key(q'.name, q'.includePrerelease) == k)
            <==> (k in c.fetched || exists q' :: q' in requests && Key(q'.name, q'.includePrerelease) == k)
      {
        if exists q' :: q' in requests && Key(q'.name, q'.includePrerelease) == k {
          var q' :| q' in requests && Key(q'.name, q'.includePrerelease) == k;
          if q' != q {
            assert q' in requests[1..];
          }
        }
        if exists q' :: q' in requests[1..] && Key(q'.name, q'.includePrerelease) == k {
          var q' :| q' in requests[1..] && Key(q'.name, q'.includePrerelease) == k;
          assert q' in requests;
        }
      }
    }
  }
}
