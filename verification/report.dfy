/**
  The command itself: gather the requirements, ask PyPI about each named
  one, add up how many days each pinned release is behind the latest, and
  turn the totals into the exit status.

  The network is a deterministic oracle `fetch` from URL to reply; what is
  printed is left out, only the totals and the exit status are kept.
*/
module Report {
  import opened Wrappers
  import opened Text
  import opened Resolver
  import opened ReqFile

  // ---------------------------------------------------------------------
  // Gathering the requirements

  /** Where the requirements come from: the files given on the command
      line, or the single text downloaded from GitHub or from a URL. */
  datatype Source = Local(reqFiles: seq<seq<string>>) | Remote(text: seq<string>)

  /** The lines of several files, one file after the other. */
  function Flatten(rfs: seq<seq<string>>): (lines: seq<string>)
    ensures |rfs| == 1 ==> lines == rfs[0]
    decreases |rfs|
  {
    if rfs == [] then [] else Flatten(rfs[..|rfs| - 1]) + rfs[|rfs| - 1]
  }

  /** The entries of the command-line files, each read with its name. */
  function LocalEntries(rfs: seq<seq<string>>, files: map<string, seq<string>>,
                        verbatim: bool, fuel: nat): Option<seq<Entry>>
    decreases |rfs|
  {
    if rfs == [] then Some([])
    else Then(LocalEntries(rfs[..|rfs| - 1], files, verbatim, fuel),
              FileEntries(rfs[|rfs| - 1], true, files, verbatim, fuel))
  }

  /** The `requirements` list `main` builds. A downloaded text has no name,
      so its include lines are skipped, and it is always read outside
      verbatim mode. `None` is the `RecursionError` of an include cycle. */
  function Gathered(src: Source, files: map<string, seq<string>>,
                    verbatim: bool, fuel: nat): Option<seq<Entry>>
  {
    match src
    case Remote(text) => FileEntries(text, false, files, false, fuel)
    case Local(rfs) => LocalEntries(rfs, files, verbatim, fuel)
  }

  /** Reading the command-line files one by one gives what reading their
      concatenation as a single file would give. */
  lemma {:induction false} LocalIsConcatenation(rfs: seq<seq<string>>, files: map<string, seq<string>>,
                                                verbatim: bool, fuel: nat)
    ensures LocalEntries(rfs, files, verbatim, fuel) == FileEntries(Flatten(rfs), true, files, verbatim, fuel)
    decreases |rfs|
  {
    if rfs == [] {
      assert ClassifyAll([]) == [];
    } else {
      var init := rfs[..|rfs| - 1];
      LocalIsConcatenation(init, files, verbatim, fuel);
      FileEntriesAppend(Flatten(init), rfs[|rfs| - 1], true, files, verbatim, fuel);
    }
  }

  /** Every entry of a downloaded text is a named requirement whose version
      has no whitespace, whatever the verbatim flag. */
  lemma RemoteEntriesNamed(text: seq<string>, files: map<string, seq<string>>, verbatim: bool, fuel: nat)
    ensures Gathered(Remote(text), files, verbatim, fuel).Some?
    ensures forall e :: e in Gathered(Remote(text), files, verbatim, fuel).value ==>
      e.name.Some? && e.name.value != [] && NoSpace(e.spec)
  {
    FileNamedOutsideVerbatim(text, false, files, fuel);
    NoIncludesFollowed(ClassifyAll(text), ClassifyFiles(files), fuel);
  }

  /** Without a file name no include is followed, so nothing can run out of
      recursion depth. */
  lemma {:induction false} NoIncludesFollowed(ls: seq<Line>, sources: map<string, seq<Line>>, fuel: nat)
    ensures LinesEntries(ls, false, sources, false, fuel).Some?
    decreases |ls|
  {
    if ls != [] {
      NoIncludesFollowed(ls[..|ls| - 1], sources, fuel);
    }
  }

  /** The loop over the command-line files, or the single download. */
  method Gather(src: Source, files: map<string, seq<string>>, verbatim: bool, fuel: nat)
    returns (r: Option<seq<Entry>>)
    ensures r == Gathered(src, files, verbatim, fuel)
  {
    match src {
      case Remote(text) =>
        r := ParseReqFile(text, false, files, false, fuel);
      case Local(rfs) =>
        var requirements: seq<Entry> := [];
        var i := 0;
        while i < |rfs|
          invariant 0 <= i <= |rfs|
          invariant LocalEntries(rfs[..i], files, verbatim, fuel) == Some(requirements)
        {
          var more := ParseReqFile(rfs[i], true, files, verbatim, fuel);
          assert rfs[..i + 1][..i] == rfs[..i];
          if more.None? {
            LocalFailureIsFinal(rfs, i + 1, files, verbatim, fuel);
            return None;
          }
          requirements := requirements + more.value;
          i := i + 1;
        }
        assert rfs[..|rfs|] == rfs;
        r := Some(requirements);
    }
  }

  /** Once one file fails, the gathering has failed. */
  lemma {:induction false} LocalFailureIsFinal(rfs: seq<seq<string>>, i: nat, files: map<string, seq<string>>,
                                               verbatim: bool, fuel: nat)
    requires i <= |rfs|
    requires LocalEntries(rfs[..i], files, verbatim, fuel).None?
    ensures LocalEntries(rfs, files, verbatim, fuel).None?
    decreases |rfs| - i
  {
    if i < |rfs| {
      assert rfs[..i + 1][..i] == rfs[..i];
      LocalFailureIsFinal(rfs, i + 1, files, verbatim, fuel);
    } else {
      assert rfs[..i] == rfs;
    }
  }

  // ---------------------------------------------------------------------
  // Asking PyPI

  /** One element of `results`: a raw line kept in verbatim mode, or a
      requirement with the replies for its latest and its pinned version. */
  datatype Pending =
    | Raw(text: string)
    | Query(req: string, version: string, ignore: bool, latest: Response, specified: Response)

  /** The `results` list of the first loop of `main`. */
  function Queries(entries: seq<Entry>, verbatim: bool, fetch: string -> Response): (ps: seq<Pending>)
    ensures |ps| <= |entries|
    decreases |entries|
  {
    if entries == [] then []
    else
      var e := entries[|entries| - 1];
      Queries(entries[..|entries| - 1], verbatim, fetch) +
        (if verbatim && !Truthy(e.name) then [Raw(e.spec)]
         else if Truthy(e.name) then
           [Query(e.name.value, e.spec, e.ignore,
                  fetch(PypiUrl(e.name.value, None)), fetch(PypiUrl(e.name.value, Some(e.spec))))]
         else [])
  }

  /** Each query carries a non-empty name and, since the version never
      reaches the URL, the same reply twice; outside verbatim mode there is
      one query per named entry and nothing else. */
  lemma {:induction false} QueriesShape(entries: seq<Entry>, verbatim: bool, fetch: string -> Response)
    ensures forall p :: p in Queries(entries, verbatim, fetch) && p.Query? ==>
      p.req != [] && p.latest == p.specified && p.latest == fetch(PypiUrl(p.req, None))
    ensures !verbatim ==> forall p :: p in Queries(entries, verbatim, fetch) ==> p.Query?
    ensures |Queries(entries, verbatim, fetch)| <= |entries|
    decreases |entries|
  {
    if entries != [] {
      var e := entries[|entries| - 1];
      QueriesShape(entries[..|entries| - 1], verbatim, fetch);
      if Truthy(e.name) {
        PypiUrlIgnoresVersion(e.name.value, None, Some(e.spec));
      }
    }
  }

  /** The first loop of `main`. */
  method Collect(entries: seq<Entry>, verbatim: bool, fetch: string -> Response)
    returns (results: seq<Pending>)
    ensures results == Queries(entries, verbatim, fetch)
  {
    results := [];
    var i := 0;
    while i < |entries|
      invariant 0 <= i <= |entries|
      invariant results == Queries(entries[..i], verbatim, fetch)
    {
      var e := entries[i];
      assert entries[..i + 1][..i] == entries[..i];
      if verbatim && !Truthy(e.name) {
        results := results + [Raw(e.spec)];
      } else if Truthy(e.name) {
        var req := e.name.value;
        results := results + [Query(req, e.spec, e.ignore,
                                    fetch(PypiUrl(req, None)), fetch(PypiUrl(req, Some(e.spec))))];
      }
      i := i + 1;
    }
    assert entries[..|entries|] == entries;
  }

  // ---------------------------------------------------------------------
  // Days behind

  const SecondsPerDay: int := 86400

  /** `(latest - specified).days` for times in seconds: the whole number of
      days, rounded down as `timedelta` does for negative spans too. */
  function Days(latest: int, specified: int): (d: int)
    ensures d * SecondsPerDay <= latest - specified < d * SecondsPerDay + SecondsPerDay
  {
    (latest - specified) / SecondsPerDay
  }

  /** What one element of `results` does to the totals. */
  datatype Outcome = Skipped | Behind(days: int) | Raised

  /** The two lookups of a requirement: an exception in either escapes
      `main`; only two release dates give a number of days. */
  function Combine(latest: Lookup, specified: Lookup): (o: Outcome)
    ensures o.Raised? <==> latest.Crash? || specified.Crash?
    ensures o.Behind? <==> latest.Found? && specified.Found?
    ensures o.Behind? ==> o.days == Days(latest.date, specified.date)
  {
    if latest.Crash? || specified.Crash? then Raised
    else if latest.Found? && specified.Found? then Behind(Days(latest.date, specified.date))
    else Skipped
  }

  /** One pass of the second loop of `main`: raw lines and `norot`
      requirements are skipped before any lookup. A 404 for a requirement
      that is looked up aborts the run; days are counted only when both
      replies were successful. */
  function StepOutcome(p: Pending): (o: Outcome)
    ensures p.Query? && !p.ignore && (p.latest.status == 404 || p.specified.status == 404) ==> o == Raised
    ensures o.Behind? ==> p.Query? && !p.ignore && p.latest.status == 200 && p.specified.status == 200
  {
    match p
    case Raw(_) => Skipped
    case Query(_, version, ignore, latest, specified) =>
      if ignore then Skipped
      else Combine(Resolve(latest, None), Resolve(specified, Some(version)))
  }

  /** The two calls of `get_version_and_release_date` for one result. */
  method Lookups(p: Pending) returns (o: Outcome)
    ensures o == StepOutcome(p)
  {
    match p {
      case Raw(_) =>
        o := Skipped;
      case Query(_, version, ignore, latest, specified) =>
        if ignore {
          o := Skipped;
        } else {
          var latestLookup := Resolve(latest, None);
          var specifiedLookup := Resolve(specified, Some(version));
          o := Combine(latestLookup, specifiedLookup);
        }
    }
  }

  /** A requirement pinned at the version the latest lookup reports is zero
      days behind. */
  lemma PinnedAtLatest(resp: Response)
    requires Resolve(resp, None).Found?
    ensures StepOutcome(Query("", Resolve(resp, None).version, false, resp, resp)) == Behind(0)
  {
    LatestThenPinned(resp);
  }

  /** What the second loop of `main` sees, one outcome per result. */
  function Outcomes(ps: seq<Pending>): (os: seq<Outcome>)
    ensures |os| == |ps|
  {
    seq(|ps|, k requires 0 <= k < |ps| => StepOutcome(ps[k]))
  }

  /** `total_time_delta` and `max_outdated_time`. */
  datatype Totals = Totals(total: int, maxOutdated: int)

  function Max(a: int, b: int): int {
    if a > b then a else b
  }

  /** One pass of the second loop on the totals so far. */
  function Step(acc: Option<Totals>, o: Outcome): Option<Totals> {
    match acc
    case None => None
    case Some(t) =>
      match o
      case Raised => None
      case Skipped => Some(t)
      case Behind(d) => Some(Totals(t.total + d, Max(d, t.maxOutdated)))
  }

  /** The totals after the second loop, or `None` when a lookup raised. */
  function TallySpec(os: seq<Outcome>): (t: Option<Totals>)
    ensures t.Some? ==> t.value.maxOutdated >= 0
    decreases |os|
  {
    if os == [] then Some(Totals(0, 0)) else Step(TallySpec(os[..|os| - 1]), os[|os| - 1])
  }

  lemma TallyStep(os: seq<Outcome>, i: nat)
    requires i < |os|
    ensures TallySpec(os[..i + 1]) == Step(TallySpec(os[..i]), os[i])
  {
    assert os[..i + 1][..i] == os[..i];
  }

  /** The day counts of the requirements that got two release dates, in
      order. */
  function Delays(os: seq<Outcome>): seq<int>
    decreases |os|
  {
    if os == [] then []
    else
      var o := os[|os| - 1];
      Delays(os[..|os| - 1]) + (if o.Behind? then [o.days] else [])
  }

  function Sum(s: seq<int>): int
    decreases |s|
  {
    if s == [] then 0 else Sum(s[..|s| - 1]) + s[|s| - 1]
  }

  /** The totals are the sum of the day counts and their maximum with 0;
      there are none exactly when some lookup raised. */
  lemma {:induction false} TallyMeaning(os: seq<Outcome>)
    ensures TallySpec(os).None? <==> Raised in os
    ensures TallySpec(os).Some? ==>
      var t := TallySpec(os).value;
      && t.total == Sum(Delays(os))
      && t.maxOutdated >= 0
      && (forall d :: d in Delays(os) ==> d <= t.maxOutdated)
      && (t.maxOutdated == 0 || t.maxOutdated in Delays(os))
    decreases |os|
  {
    if os != [] {
      var init := os[..|os| - 1];
      TallyMeaning(init);
      var last := os[|os| - 1];
      assert os == init + [last];
      if TallySpec(os).Some? {
        var ds := Delays(init);
        if last.Behind? {
          assert Delays(os) == ds + [last.days];
          assert Delays(os)[..|Delays(os)| - 1] == ds;
        } else {
          assert Delays(os) == ds;
        }
      }
    }
  }

  /** The second loop of `main`. */
  method Tally(results: seq<Pending>) returns (r: Option<Totals>)
    ensures r == TallySpec(Outcomes(results))
  {
    ghost var os := Outcomes(results);
    var totalTimeDelta := 0;
    var maxOutdatedTime := 0;
    var i := 0;
    while i < |results|
      invariant 0 <= i <= |results|
      invariant TallySpec(os[..i]) == Some(Totals(totalTimeDelta, maxOutdatedTime))
    {
      var outcome := Lookups(results[i]);
      var raised;
      raised, totalTimeDelta, maxOutdatedTime := Accumulate(os, i, outcome, totalTimeDelta, maxOutdatedTime);
      if raised {
        TallyFailureIsFinal(os, i + 1);
        return None;
      }
      i := i + 1;
    }
    assert os[..|os|] == os;
    return Some(Totals(totalTimeDelta, maxOutdatedTime));
  }

  /** The body of the second loop once both lookups are done: add the days
      behind to the total and to the maximum, or report the exception. */
  method Accumulate(ghost os: seq<Outcome>, ghost i: nat, outcome: Outcome, total: int, maxOutdated: int)
    returns (raised: bool, total': int, maxOutdated': int)
    requires i < |os| && os[i] == outcome
    requires TallySpec(os[..i]) == Some(Totals(total, maxOutdated))
    ensures raised <==> TallySpec(os[..i + 1]).None?
    ensures !raised ==> TallySpec(os[..i + 1]) == Some(Totals(total', maxOutdated'))
  {
    TallyStep(os, i);
    raised, total', maxOutdated' := false, total, maxOutdated;
    match outcome {
      case Raised =>
        raised := true;
      case Skipped =>
      case Behind(timeDelta) =>
        total' := total + timeDelta;
        maxOutdated' := Max(timeDelta, maxOutdated);
    }
  }

  /** Once a lookup raises, nothing after it runs. */
  lemma {:induction false} TallyFailureIsFinal(os: seq<Outcome>, i: nat)
    requires i <= |os|
    requires TallySpec(os[..i]).None?
    ensures TallySpec(os).None?
    decreases |os| - i
  {
    if i < |os| {
      assert os[..i + 1][..i] == os[..i];
      TallyFailureIsFinal(os, i + 1);
    } else {
      assert os[..i] == os;
    }
  }

  // ---------------------------------------------------------------------
  // The verdict

  /** The closing message: total days behind with no delay given, a
      dependency older than the delay, all within the delay, or up to date. */
  datatype Verdict = OutOfDate(days: int) | PastDelay(days: int) | WithinDelay | UpToDate

  function Judge(t: Totals, delay: Option<int>): (v: Verdict)
    ensures v.OutOfDate? ==> delay.None? && v.days > 0
    ensures v.PastDelay? ==> delay.Some? && v.days > delay.value
  {
    if t.total > 0 && delay.None? then OutOfDate(t.total)
    else if delay.Some? && t.maxOutdated > delay.value then PastDelay(t.maxOutdated)
    else if delay.Some? then WithinDelay
    else UpToDate
  }

  /** The exit status: 1 after `sys.exit(1)` or an escaping exception. */
  function ExitStatus(r: Option<Totals>, delay: Option<int>): (status: int)
    ensures status == 0 || status == 1
  {
    match r
    case None => 1
    case Some(t) => if Judge(t, delay).OutOfDate? || Judge(t, delay).PastDelay? then 1 else 0
  }

  /** Without a delay the command fails when the requirements are in total
      behind; with a delay `d` it fails when some requirement is more than
      `d` days behind, or when `d` is negative, since the maximum starts at 0.
      A lookup that raises fails it in either case. */
  lemma ExitMeaning(os: seq<Outcome>, delay: Option<int>)
    ensures ExitStatus(TallySpec(os), delay) == 1 <==>
      || Raised in os
      || (delay.None? && Sum(Delays(os)) > 0)
      || (delay.Some? && (delay.value < 0 || exists d :: d in Delays(os) && d > delay.value))
  {
    TallyMeaning(os);
  }

  /** With a delay the verdict never reports the total, and without one it
      never reports the maximum. */
  lemma VerdictKinds(t: Totals, delay: Option<int>)
    ensures delay.Some? ==> !Judge(t, delay).OutOfDate? && !Judge(t, delay).UpToDate?
    ensures delay.None? ==> (Judge(t, delay) == OutOfDate(t.total) <==> t.total > 0)
    ensures delay.None? ==> (Judge(t, delay) == UpToDate <==> t.total <= 0)
  {
  }

  // ---------------------------------------------------------------------
  // The whole run

  /** The exit status of `main` for the given source, include files,
      verbatim flag, delay and PyPI replies. */
  function RunStatus(src: Source, files: map<string, seq<string>>, verbatim: bool,
                     delay: Option<int>, fuel: nat, fetch: string -> Response): (status: int)
    ensures status == 0 || status == 1
    ensures Gathered(src, files, verbatim, fuel).None? ==> status == 1
  {
    match Gathered(src, files, verbatim, fuel)
    case None => 1
    case Some(entries) => ExitStatus(TallySpec(Outcomes(Queries(entries, verbatim, fetch))), delay)
  }

  /** `main`: gather, ask, tally, judge. */
  method Run(src: Source, files: map<string, seq<string>>, verbatim: bool,
             delay: Option<int>, fuel: nat, fetch: string -> Response)
    returns (status: int)
    ensures status == RunStatus(src, files, verbatim, delay, fuel, fetch)
    ensures status == 0 || status == 1
  {
    var requirements := Gather(src, files, verbatim, fuel);
    if requirements.None? {
      return 1;
    }
    var results := Collect(requirements.value, verbatim, fetch);
    var totals := Tally(results);
    status := ExitStatus(totals, delay);
  }

  /** A run whose only requirements are `norot` never fails. */
  lemma IgnoredNeverFail(entries: seq<Entry>, verbatim: bool,
                         delay: Option<int>, fetch: string -> Response)
    requires forall e :: e in entries ==> e.ignore
    requires delay.None? || delay.value >= 0
    ensures ExitStatus(TallySpec(Outcomes(Queries(entries, verbatim, fetch))), delay) == 0
  {
    var os := Outcomes(Queries(entries, verbatim, fetch));
    AllSkipped(entries, verbatim, fetch);
    AllSkippedDelays(os);
    TallyMeaning(os);
  }

  /** The results of `norot` entries all skip. */
  lemma {:induction false} AllSkipped(entries: seq<Entry>, verbatim: bool, fetch: string -> Response)
    requires forall e :: e in entries ==> e.ignore
    ensures forall p :: p in Queries(entries, verbatim, fetch) ==> StepOutcome(p) == Skipped
    decreases |entries|
  {
    if entries != [] {
      var init := entries[..|entries| - 1];
      assert forall e :: e in init ==> e in entries;
      AllSkipped(init, verbatim, fetch);
    }
  }

  lemma {:induction false} AllSkippedDelays(os: seq<Outcome>)
    requires forall k :: 0 <= k < |os| ==> os[k] == Skipped
    ensures Delays(os) == [] && Raised !in os
    decreases |os|
  {
    if os != [] {
      AllSkippedDelays(os[..|os| - 1]);
      assert os == os[..|os| - 1] + [os[|os| - 1]];
    }
  }
}
