/**
  The offline half of `get_version_and_release_date`: given the PyPI reply
  for a project, either look up the upload time of a pinned version or pick
  the latest release with the version order of `PiprotVersion`.

  The reply is a value: its HTTP status and, when the body decoded to a
  non-empty JSON object, the ordered `releases` object and the optional
  `info.stable_version`. Upload times are integer seconds.
*/
module Resolver {
  import opened Wrappers
  import opened Text
  import opened Versioning

  /** One key of the `releases` object and the upload times of its files. */
  datatype Release = Release(key: string, uploads: seq<int>)

  /** The decoded JSON body: `releases` in key order and `info.stable_version`. */
  datatype Payload = Payload(releases: seq<Release>, stableVersion: Option<string>)

  /** A reply: status code, and the JSON body when it decoded to something truthy. */
  datatype Response = Response(status: int, json: Option<Payload>)

  /** The outcome of one lookup: a version with its release date, the
      `(None, None)` answer, or an exception that escapes the function. */
  datatype Lookup = Found(version: string, date: int) | Missing | Crash

  const PypiBaseUrl: string := "https://pypi.org/pypi"

  /** `get_pypi_url`: the version argument is accepted but never used. */
  function PypiUrl(requirement: string, version: Option<string>): (url: string)
    ensures StartsWith(url, PypiBaseUrl + "/") && EndsWith(url, "/json")
    ensures |url| == |PypiBaseUrl| + |requirement| + 6
  {
    PypiBaseUrl + "/" + requirement + "/json"
  }

  /** The URL for a pinned version is the URL for the latest one. */
  lemma PypiUrlIgnoresVersion(requirement: string, v: Option<string>, w: Option<string>)
    ensures PypiUrl(requirement, v) == PypiUrl(requirement, w)
    ensures PypiUrl(requirement, v)[|PypiBaseUrl| + 1..|PypiBaseUrl| + 1 + |requirement|] == requirement
  {
    var url := PypiUrl(requirement, v);
    assert url == (PypiBaseUrl + "/") + requirement + "/json";
  }

  // ---------------------------------------------------------------------
  // The releases object

  /** The index of the first release with key `key`, as the dictionary
      lookup `releases[key]` finds it. */
  function FindRelease(releases: seq<Release>, key: string): (r: Option<nat>)
    ensures r.Some? ==> r.value < |releases| && releases[r.value].key == key
    ensures r.Some? ==> forall j :: 0 <= j < r.value ==> releases[j].key != key
    ensures r.None? <==> forall j :: 0 <= j < |releases| ==> releases[j].key != key
  {
    if releases == [] then None
    else if releases[0].key == key then Some(0)
    else match FindRelease(releases[1..], key) {
      case None => None
      case Some(i) => Some(i + 1)
    }
  }

  /** The keys of `releases`, in order. */
  function Keys(releases: seq<Release>): (keys: seq<string>)
    ensures |keys| == |releases|
    ensures forall i :: 0 <= i < |releases| ==> keys[i] == releases[i].key
  {
    seq(|releases|, i requires 0 <= i < |releases| => releases[i].key)
  }

  /** A key names a pre-release when its parsed version does. */
  predicate IsPrereleaseKey(key: string) {
    MarksPrerelease(ParseVersion(key).version)
  }

  /** The keys that are not pre-releases, in order (the first dictionary
      comprehension). */
  function StableKeys(keys: seq<string>): (stable: seq<string>)
    ensures |stable| <= |keys|
    ensures forall k :: k in stable <==> k in keys && !IsPrereleaseKey(k)
  {
    if keys == [] then []
    else if IsPrereleaseKey(keys[0]) then StableKeys(keys[1..])
    else [keys[0]] + StableKeys(keys[1..])
  }

  /** The filter keeps the keys' order: filtering a concatenation
      concatenates the filtered parts. */
  lemma {:induction false} StableKeysAppend(a: seq<string>, b: seq<string>)
    ensures StableKeys(a + b) == StableKeys(a) + StableKeys(b)
  {
    if a == [] {
      assert a + b == b;
    } else {
      assert (a + b)[0] == a[0];
      assert (a + b)[1..] == a[1..] + b;
      StableKeysAppend(a[1..], b);
    }
  }

  /** The keys `max` runs over: the stable ones, or all of them when there
      are none. */
  function Candidates(releases: seq<Release>): (keys: seq<string>)
    ensures forall k :: k in keys ==> k in Keys(releases)
    ensures keys == [] <==> releases == []
    ensures (exists k :: k in Keys(releases) && !IsPrereleaseKey(k)) ==>
      forall k :: k in keys ==> !IsPrereleaseKey(k)
    ensures forall k :: k in Keys(releases) && (!IsPrereleaseKey(k) || StableKeys(Keys(releases)) == []) ==>
      k in keys
  {
    var stable := StableKeys(Keys(releases));
    if stable != [] then stable
    else
      assert releases != [] ==> Keys(releases)[0] in Keys(releases);
      Keys(releases)
  }

  // ---------------------------------------------------------------------
  // `max(versions.items(), key=itemgetter(1))`

  /** The parsed versions of the keys, in order. */
  function Parsed(keys: seq<string>): (vs: seq<Version>)
    ensures |vs| == |keys|
    ensures forall i :: 0 <= i < |keys| ==> vs[i] == ParseVersion(keys[i])
  {
    seq(|keys|, i requires 0 <= i < |keys| => ParseVersion(keys[i]))
  }

  /** Two versions with the same string carry the same parts. */
  predicate Agree(a: Version, b: Version) {
    a.version == b.version ==> a.parts == b.parts
  }

  /** Equal strings carry equal parts, as they do for parsed versions. The
      trigger keeps the solver from pairing every two elements unasked. */
  ghost predicate Coherent(vs: seq<Version>) {
    forall i, j {:trigger Agree(vs[i], vs[j])} :: 0 <= i < |vs| && 0 <= j < |vs| ==> Agree(vs[i], vs[j])
  }

  lemma ParsedCoherent(keys: seq<string>)
    ensures Coherent(Parsed(keys))
  {
    var vs := Parsed(keys);
    forall i, j | 0 <= i < |vs| && 0 <= j < |vs|
      ensures Agree(vs[i], vs[j])
    {
      if vs[i].version == vs[j].version {
        SameStringSameParts(keys[i], keys[j]);
      }
    }
  }

  /** The left-to-right scan of `max`: `best` is the index of the current
      maximum and `i` the next index to look at. Python asks `cand > best`,
      which `PiprotVersion` answers through the reflected `best < cand`, so
      the maximum moves only when `less(best, cand)`; `max` itself runs the
      scan with `Less`. */
  function ScanMax(vs: seq<Version>, less: (Version, Version) -> bool, best: nat, i: nat): (r: nat)
    requires best < i <= |vs|
    ensures best <= r < |vs|
    decreases |vs| - i
  {
    if i == |vs| then best
    else if less(vs[best], vs[i]) then ScanMax(vs, less, i, i + 1)
    else ScanMax(vs, less, best, i + 1)
  }

  /** The key `max` returns, when there is any. */
  function Latest(keys: seq<string>): (r: Option<string>)
    ensures r.None? <==> keys == []
    ensures r.Some? ==> r.value in keys
  {
    if keys == [] then None else Some(keys[ScanMax(Parsed(keys), Less, 0, 1)])
  }

  // The scan is reasoned about for any comparison `less` and any preorder
  // `le` it agrees with; `max` instantiates them with `Less` and the order
  // of the padded parts.

  /** The padded parts of `a` are at or below those of `b`. */
  predicate AtMost(a: Version, b: Version) {
    PartsAtMost(a.parts, b.parts)
  }

  /** The padded parts of `a` are strictly below those of `b`. */
  predicate Below(a: Version, b: Version) {
    PartsBelow(a.parts, b.parts)
  }

  /** On `vs`, a yes from `less` puts `a` at or below `b` in `le`, a no puts
      `b` at or below `a`. */
  ghost predicate Bounded(vs: seq<Version>, less: (Version, Version) -> bool, le: (Version, Version) -> bool) {
    forall x, y :: 0 <= x < |vs| && 0 <= y < |vs| ==>
      (less(vs[x], vs[y]) ==> le(vs[x], vs[y])) && (!less(vs[x], vs[y]) ==> le(vs[y], vs[x]))
  }

  /** `le` is reflexive at `vs[j]` and leads on from it: whatever is at or
      above something at or above `vs[j]` is at or above `vs[j]`. */
  ghost predicate ChainsFrom(vs: seq<Version>, le: (Version, Version) -> bool, j: nat) {
    && j < |vs| && le(vs[j], vs[j])
    && (forall y, z :: 0 <= y < |vs| && 0 <= z < |vs| ==>
          le(vs[j], vs[y]) && le(vs[y], vs[z]) ==> le(vs[j], vs[z]))
  }

  /** On `vs`, `less` says yes only when `lt` holds, and from `vs[j]` a step
      at or below followed by a strict one is strict. */
  ghost predicate StrictFrom(vs: seq<Version>, less: (Version, Version) -> bool,
                             le: (Version, Version) -> bool, lt: (Version, Version) -> bool, j: nat) {
    && j < |vs|
    && (forall x, y :: 0 <= x < |vs| && 0 <= y < |vs| ==> less(vs[x], vs[y]) ==> lt(vs[x], vs[y]))
    && (forall y, z :: 0 <= y < |vs| && 0 <= z < |vs| ==>
          (le(vs[j], vs[y]) || lt(vs[j], vs[y])) && lt(vs[y], vs[z]) ==> lt(vs[j], vs[z]))
  }

  /** `PiprotVersion.__lt__` follows the padded parts on parsed versions,
      and the order of the padded parts is a preorder. */
  lemma LessBounded(vs: seq<Version>, j: nat)
    requires Coherent(vs) && j < |vs|
    ensures Bounded(vs, Less, AtMost) && ChainsFrom(vs, AtMost, j)
  {
    forall x, y | 0 <= x < |vs| && 0 <= y < |vs|
      ensures (Less(vs[x], vs[y]) ==> AtMost(vs[x], vs[y])) && (!Less(vs[x], vs[y]) ==> AtMost(vs[y], vs[x]))
    {
      assert Agree(vs[x], vs[y]);
      LessBoundsParts(vs[x], vs[y]);
    }
    PartsAtMostReflexive(vs[j].parts);
    forall y, z | 0 <= y < |vs| && 0 <= z < |vs| && AtMost(vs[j], vs[y]) && AtMost(vs[y], vs[z])
      ensures AtMost(vs[j], vs[z])
    {
      PartsAtMostTransitive(vs[j].parts, vs[y].parts, vs[z].parts);
    }
  }

  /** Without pre-releases `__lt__` is strict on the padded parts. */
  lemma LessStrict(vs: seq<Version>, j: nat)
    requires Coherent(vs) && j < |vs|
    requires forall k :: 0 <= k < |vs| ==> !MarksPrerelease(vs[k].version)
    ensures StrictFrom(vs, Less, AtMost, Below, j)
  {
    forall x, y | 0 <= x < |vs| && 0 <= y < |vs| && Less(vs[x], vs[y]) ensures Below(vs[x], vs[y]) {
      assert Agree(vs[x], vs[y]);
      LessBoundsParts(vs[x], vs[y]);
    }
    forall y, z | 0 <= y < |vs| && 0 <= z < |vs| && (AtMost(vs[j], vs[y]) || Below(vs[j], vs[y])) && Below(vs[y], vs[z])
      ensures Below(vs[j], vs[z])
    {
      PartsAtMostTransitive(vs[j].parts, vs[y].parts, vs[z].parts);
    }
  }

  /** Any version `vs[j]` at or below the current best once it has been
      seen stays at or below whatever the scan returns. */
  lemma {:induction false} ScanMaxIsMaximal(vs: seq<Version>, less: (Version, Version) -> bool,
                                            le: (Version, Version) -> bool, best: nat, i: nat, j: nat)
    requires best < i <= |vs| && Bounded(vs, less, le) && ChainsFrom(vs, le, j)
    requires j < i ==> le(vs[j], vs[best])
    ensures le(vs[j], vs[ScanMax(vs, less, best, i)])
    decreases |vs| - i
  {
    if i < |vs| {
      var next := MaximalStep(vs, less, le, best, i, j);
      ScanMaxIsMaximal(vs, less, le, next, i + 1, j);
    }
  }

  /** One step of `ScanMaxIsMaximal`. */
  lemma MaximalStep(vs: seq<Version>, less: (Version, Version) -> bool,
                    le: (Version, Version) -> bool, best: nat, i: nat, j: nat) returns (next: nat)
    requires best < i < |vs| && Bounded(vs, less, le) && ChainsFrom(vs, le, j)
    requires j < i ==> le(vs[j], vs[best])
    ensures next < i + 1 && ScanMax(vs, less, best, i) == ScanMax(vs, less, next, i + 1)
    ensures j < i + 1 ==> le(vs[j], vs[next])
  {
    if less(vs[best], vs[i]) {
      next := i;
    } else {
      next := best;
    }
  }

  /** With a strict `less`, every version before the index the scan returns
      is strictly below it: the scan keeps the FIRST of the versions with
      maximal parts. */
  lemma {:induction false} ScanMaxKeepsFirst(vs: seq<Version>, less: (Version, Version) -> bool,
                                             le: (Version, Version) -> bool, lt: (Version, Version) -> bool,
                                             best: nat, i: nat, j: nat)
    requires best < i <= |vs| && Bounded(vs, less, le) && ChainsFrom(vs, le, j)
    requires StrictFrom(vs, less, le, lt, j)
    requires j < best ==> lt(vs[j], vs[best])
    requires best <= j < i ==> le(vs[j], vs[best])
    ensures j < ScanMax(vs, less, best, i) ==> lt(vs[j], vs[ScanMax(vs, less, best, i)])
    decreases |vs| - i
  {
    if i < |vs| {
      var next := KeepsFirstStep(vs, less, le, lt, best, i, j);
      ScanMaxKeepsFirst(vs, less, le, lt, next, i + 1, j);
    }
  }

  /** One step of `ScanMaxKeepsFirst`: the scan goes on from `next`, and
      `vs[j]` keeps its standing against it. */
  lemma KeepsFirstStep(vs: seq<Version>, less: (Version, Version) -> bool,
                       le: (Version, Version) -> bool, lt: (Version, Version) -> bool,
                       best: nat, i: nat, j: nat) returns (next: nat)
    requires best < i < |vs| && Bounded(vs, less, le) && ChainsFrom(vs, le, j)
    requires StrictFrom(vs, less, le, lt, j)
    requires j < best ==> lt(vs[j], vs[best])
    requires best <= j < i ==> le(vs[j], vs[best])
    ensures next < i + 1 && ScanMax(vs, less, best, i) == ScanMax(vs, less, next, i + 1)
    ensures j < next ==> lt(vs[j], vs[next])
    ensures next <= j < i + 1 ==> le(vs[j], vs[next])
  {
    if less(vs[best], vs[i]) {
      next := i;
    } else {
      next := best;
    }
  }

  /** `Latest` picks a key whose padded parts are at or above those of
      every candidate. */
  lemma LatestIsMaximal(keys: seq<string>, k: string)
    requires k in keys
    ensures PartsAtMost(ParseVersion(k).parts, ParseVersion(Latest(keys).value).parts)
  {
    var vs := Parsed(keys);
    ParsedCoherent(keys);
    var j :| 0 <= j < |keys| && keys[j] == k;
    LessBounded(vs, j);
    if j == 0 {
      PartsAtMostReflexive(vs[0].parts);
    }
    var r := ScanMax(vs, Less, 0, 1);
    assert Latest(keys).value == keys[r];
    ScanMaxIsMaximal(vs, Less, AtMost, 0, 1, j);
    assert AtMost(vs[j], vs[r]);
  }

  /** Without pre-releases, `Latest` picks the first key with maximal
      parts: of `["1.0", "1.0.0"]` it keeps `"1.0"`. */
  lemma LatestIsFirstMaximal(keys: seq<string>, j: nat)
    requires keys != [] && j < |keys|
    requires forall k :: k in keys ==> !IsPrereleaseKey(k)
    requires PartsAtMost(ParseVersion(Latest(keys).value).parts, ParseVersion(keys[j]).parts)
    ensures exists r :: 0 <= r <= j && keys[r] == Latest(keys).value
  {
    var vs := Parsed(keys);
    ParsedCoherent(keys);
    forall k | 0 <= k < |vs| ensures !MarksPrerelease(vs[k].version) {
      assert keys[k] in keys;
    }
    LessBounded(vs, j);
    LessStrict(vs, j);
    if j == 0 {
      PartsAtMostReflexive(vs[0].parts);
    }
    var r := ScanMax(vs, Less, 0, 1);
    assert Latest(keys).value == keys[r];
    ScanMaxKeepsFirst(vs, Less, AtMost, Below, 0, 1, j);
    if j < r {
      assert PartsBelow(vs[j].parts, vs[r].parts);
      PartsOrderMeaning(vs[j].parts, vs[r].parts);
      PartsOrderMeaning(vs[r].parts, vs[j].parts);
      PartsTrichotomy(vs[j].parts, vs[r].parts);
      assert false;
    }
  }

  // ---------------------------------------------------------------------
  // The lookup

  /** `date` is the upload time of the first file of the first release
      with this key. */
  predicate FirstUploadOf(releases: seq<Release>, key: string, date: int) {
    exists i :: 0 <= i < |releases| && releases[i].key == key
      && releases[i].uploads != [] && date == releases[i].uploads[0]
  }

  /** The padded parts of `k` are at or above those of every key. */
  predicate Dominates(keys: seq<string>, k: string) {
    forall c :: c in keys ==> PartsAtMost(ParseVersion(c).parts, ParseVersion(k).parts)
  }

  /** The first release with this key has at least one file. */
  predicate HasUpload(releases: seq<Release>, key: string) {
    var i := FindRelease(releases, key);
    i.Some? && releases[i.value].uploads != []
  }

  /** `releases[key][0]["upload_time"]`, or `(None, None)` on the
      `IndexError` of an empty file list. */
  function FirstUpload(releases: seq<Release>, key: string): (r: Lookup)
    ensures r.Found? <==> HasUpload(releases, key)
    ensures r.Found? ==> r.version == key
    ensures r.Found? ==> FirstUploadOf(releases, key, r.date)
    ensures r != Crash
  {
    match FindRelease(releases, key) {
      case None => Missing
      case Some(i) => if releases[i].uploads == [] then Missing else Found(key, releases[i].uploads[0])
    }
  }

  /** `get_version_and_release_date` on a reply that is already at hand.
      A 404 reply reaches the redirect check, which reads the never assigned
      local `url`, so it raises; a truthy `stable_version` leaves
      `release_date` unassigned, so the final `return` raises. */
  function Resolve(resp: Response, pinned: Option<string>): (r: Lookup)
    ensures r.Found? ==> resp.status == 200 && resp.json.Some?
  {
    if resp.status == 404 then Crash
    else if resp.status != 200 || resp.json.None? then Missing
    else
      var payload := resp.json.value;
      if Truthy(pinned) then
        FirstUpload(payload.releases, pinned.value)
      else if Truthy(payload.stableVersion) then Crash
      else NewestUpload(payload.releases)
  }

  /** The unpinned branch: the first upload of the key `max` picks among
      the candidates, or `(None, None)` when there is none. A date is found
      exactly when the first release with that key has a file. The key is a
      release key, not a pre-release whenever one exists, and its padded parts
      are at or above those of every candidate. */
  function NewestUpload(releases: seq<Release>): (r: Lookup)
    ensures r != Crash
    ensures releases == [] ==> r == Missing
    ensures releases != [] ==> (r.Found? <==> HasUpload(releases, Latest(Candidates(releases)).value))
    ensures r.Found? ==> r.version == Latest(Candidates(releases)).value
    ensures r.Found? ==>
      && r.version in Keys(releases)
      && ((exists c :: c in Keys(releases) && !IsPrereleaseKey(c)) ==> !IsPrereleaseKey(r.version))
      && Dominates(Candidates(releases), r.version)
      && FirstUploadOf(releases, r.version, r.date)
  {
    var cands := Candidates(releases);
    match Latest(cands) {
      case None => Missing
      case Some(k) =>
        LatestDominates(cands);
        FirstUpload(releases, k)
    }
  }

  /** A pinned lookup finds exactly the first upload of that key, and says
      `(None, None)` for an absent key or an empty file list. */
  lemma PinnedLookup(resp: Response, v: string)
    requires resp.status == 200 && resp.json.Some? && v != ""
    ensures var releases := resp.json.value.releases;
      match Resolve(resp, Some(v)) {
        case Found(w, d) =>
          && w == v
          && exists i :: 0 <= i < |releases| && releases[i].key == v
               && releases[i].uploads != [] && d == releases[i].uploads[0]
        case Missing =>
          forall i :: 0 <= i < |releases| && releases[i].key == v ==>
            (forall j :: 0 <= j < i ==> releases[j].key != v) ==> releases[i].uploads == []
        case Crash => false
      }
  {
  }

  /** Which replies make the lookup raise: a 404, or a truthy
      `stable_version` when no pinned version is given. */
  lemma CrashCases(resp: Response, pinned: Option<string>)
    ensures Resolve(resp, pinned) == Crash <==>
      resp.status == 404
      || (resp.status == 200 && resp.json.Some? && !Truthy(pinned)
          && Truthy(resp.json.value.stableVersion))
  {
  }

  /** The latest lookup on a good reply: a release key that is not a
      pre-release whenever one exists, whose padded parts are at or above
      those of every candidate, with the first upload time of that key. A
      date is found exactly when the first release with the key `max` picks
      has a file. An empty `releases` object gives `(None, None)`. */
  lemma LatestLookup(resp: Response)
    requires resp.status == 200 && resp.json.Some?
    requires !Truthy(resp.json.value.stableVersion)
    ensures var releases := resp.json.value.releases;
      releases == [] ==> Resolve(resp, None) == Missing
    ensures var releases := resp.json.value.releases;
      releases != [] ==>
        && (Resolve(resp, None).Found? <==> HasUpload(releases, Latest(Candidates(releases)).value))
        && (Resolve(resp, None).Found? ==> Resolve(resp, None).version == Latest(Candidates(releases)).value)
    ensures var releases := resp.json.value.releases;
      Resolve(resp, None).Found? ==>
        var k := Resolve(resp, None).version;
        && k in Keys(releases)
        && ((exists c :: c in Keys(releases) && !IsPrereleaseKey(c)) ==> !IsPrereleaseKey(k))
        && Dominates(Candidates(releases), k)
        && FirstUploadOf(releases, k, Resolve(resp, None).date)
  {
    assert Resolve(resp, None) == NewestUpload(resp.json.value.releases);
  }

  /** `Latest` is at or above every key it was chosen from. */
  lemma LatestDominates(keys: seq<string>)
    requires keys != []
    ensures Dominates(keys, Latest(keys).value)
  {
    forall c | c in keys
      ensures PartsAtMost(ParseVersion(c).parts, ParseVersion(Latest(keys).value).parts)
    {
      LatestIsMaximal(keys, c);
    }
  }

  /** Asking again for the version the latest lookup reported gives the
      same answer. */
  lemma LatestThenPinned(resp: Response)
    requires Resolve(resp, None).Found?
    ensures Resolve(resp, Some(Resolve(resp, None).version)) == Resolve(resp, None)
  {
  }
}
