/**
  The first, single-file version of piprot (`piprot.py` at the top of the
  repository, Python 2). `load_requirements` turns the lines of one
  requirements file into a dictionary from package name to pinned version,
  and the `__main__` block adds up how many days each pin lags behind the
  newest release. Release dates come from an oracle, as integer seconds.
*/
module Legacy {
  import opened Wrappers
  import opened Text
  import Report

  // ---------------------------------------------------------------------
  // One line
  // ---------------------------------------------------------------------

  /** Whitespace as Python 2's byte-string `strip()` sees it. */
  predicate IsByteSpace(c: char) {
    c == ' ' || c == '\t' || c == '\n' || c == '\r' || c == '\U{B}' || c == '\U{C}'
  }

  /** The text of a line before its first space, once newlines are removed
      and surrounding whitespace stripped. */
  function Token(line: string): (t: string)
    ensures ' ' !in t && '\n' !in t
    ensures t == [] || !IsByteSpace(t[0])
  {
    var stripped := TrimBoth(RemoveAll(line, "\n"), IsByteSpace);
    RemoveCharAbsent(line, '\n');
    assert stripped == TrimStart(RemoveAll(line, "\n"), IsByteSpace)[..|stripped|];
    SplitFirstPiece(stripped, ' ');
    Split(stripped, " ")[0]
  }

  /** Deleting every occurrence of a character leaves none of it. */
  lemma {:induction false} RemoveCharAbsent(s: string, c: char)
    ensures c !in RemoveAll(s, [c])
    decreases |s|
  {
    match Find(s, [c])
    case None =>
      forall j | 0 <= j < |s| ensures s[j] != c {
        assert !OccursAt(s, [c], j);
        assert s[j..j + 1] == [s[j]];
      }
    case Some(k) =>
      forall j | 0 <= j < k ensures s[j] != c {
        assert !OccursAt(s, [c], j);
        assert s[j..j + 1] == [s[j]];
      }
      RemoveCharAbsent(s[k + 1..], c);
  }

  /** A token worth splitting: non-empty, not a comment or an option, and
      not mentioning `git` anywhere. */
  predicate Accepted(t: string) {
    t != [] && t[0] != '#' && t[0] != '-' && !Contains(t, "git")
  }

  /** What a line contributes: `(name, version)` when its token is accepted
      and splits on `==` into exactly two pieces; nothing otherwise (the
      `ValueError` of the tuple assignment is swallowed). */
  function Entry(line: string): (e: Option<(string, string)>)
    ensures e.Some? ==> Accepted(Token(line)) && Token(line) == e.value.0 + "==" + e.value.1
  {
    var t := Token(line);
    if !Accepted(t) then None
    else
      var pieces := Split(t, "==");
      if |pieces| == 2 then PinnedPieces(t); Some((pieces[0], pieces[1])) else None
  }

  /** A line yields `(name, version)` exactly when its accepted token is
      `name == version` with `==` occurring once, at the end of the name. */
  lemma EntryMeaning(line: string, name: string, version: string)
    ensures Entry(line) == Some((name, version)) <==>
      Accepted(Token(line)) && Token(line) == name + "==" + version
      && !Contains(name + "=", "==") && !Contains(version, "==")
  {
    var t := Token(line);
    if Accepted(t) {
      if Entry(line) == Some((name, version)) {
        PinnedPieces(t);
      }
      if t == name + "==" + version && !Contains(name + "=", "==") && !Contains(version, "==") {
        SplitPinned(name, version);
      }
    }
  }

  /** Two pieces from splitting on `==` mean exactly one occurrence, the
      first, right after the first piece. */
  lemma PinnedPieces(t: string)
    requires |Split(t, "==")| == 2
    ensures var p := Split(t, "==");
      t == p[0] + "==" + p[1] && !Contains(p[0] + "=", "==") && !Contains(p[1], "==")
  {
    var p := Split(t, "==");
    match Find(t, "==")
    case None =>
    case Some(k) =>
      var rest := t[k + 2..];
      assert p == [t[..k]] + Split(rest, "==");
      assert p[1] == rest;
      assert t == t[..k] + t[k..k + 2] + rest;
      var n := t[..k] + "=";
      assert n == t[..k + 1];
      forall j | 0 <= j <= |n| ensures !OccursAt(n, "==", j) {
        if OccursAt(n, "==", j) {
          assert t[j..j + 2] == n[j..j + 2];
          assert OccursAt(t, "==", j);
        }
      }
  }

  /** The converse of `PinnedPieces`. */
  lemma SplitPinned(name: string, version: string)
    requires !Contains(name + "=", "==") && !Contains(version, "==")
    ensures Split(name + "==" + version, "==") == [name, version]
  {
    var t := name + "==" + version;
    assert OccursAt(t, "==", |name|) by { assert t[|name|..|name| + 2] == "=="; }
    forall j | 0 <= j < |name| ensures !OccursAt(t, "==", j) {
      if OccursAt(t, "==", j) {
        assert (name + "=")[j..j + 2] == t[j..j + 2];
        assert OccursAt(name + "=", "==", j);
      }
    }
    assert Find(t, "==") == Some(|name|);
    assert t[..|name|] == name;
    assert t[|name| + 2..] == version;
    assert Split(version, "==") == [version];
  }

  /** A token without any `=` names no version, so the line is dropped:
      `requests >= 1.0` and `requests == 1.0` both reduce to `requests`. */
  lemma UnpinnedDropped(line: string)
    requires '=' !in Token(line)
    ensures Entry(line) == None
  {
    var t := Token(line);
    NoFirstCharNoOccurrence(t, "==");
    assert Find(t, "==") == None;
  }

  /** `name==version` on a line of its own is read back as it was written. */
  lemma PinnedLineRead(name: string, version: string, line: string)
    requires line == name + "==" + version + "\n"
    requires name != [] && name[0] != '#' && name[0] != '-'
    requires forall i :: 0 <= i < |name| ==> !IsByteSpace(name[i]) && name[i] != '='
    requires forall i :: 0 <= i < |version| ==> !IsByteSpace(version[i])
    requires !Contains(version, "==") && !Contains(name + "==" + version, "git")
    ensures Entry(line) == Some((name, version))
  {
    var t := name + "==" + version;
    assert '\n' !in t by {
      assert forall i :: 0 <= i < |t| ==> t[i] == '=' || !IsByteSpace(t[i]);
    }
    NoFirstCharNoOccurrence(t, "\n");
    FirstCharAbsent(t, "\n");
    RemoveAllStep(t, "\n", "");
    assert line == t + "\n" + "";
    assert RemoveAll("", "\n") == "";
    assert RemoveAll(line, "\n") == t;
    TrimStartKeeps(t, IsByteSpace);
    assert TrimEnd(t, IsByteSpace) == t by {
      assert t[|t| - 1] == '=' || !IsByteSpace(t[|t| - 1]);
    }
    assert ' ' !in t by {
      assert forall i :: 0 <= i < |t| ==> t[i] == '=' || !IsByteSpace(t[i]);
    }
    SplitFirstPiece(t, ' ');
    BeforeAbsent(t, ' ');
    assert Token(line) == t;
    NoEqualsPrefix(name);
    EntryMeaning(line, name, version);
  }

  /** `name + "="` has no `==` when `name` has no `=`. */
  lemma NoEqualsPrefix(name: string)
    requires '=' !in name
    ensures !Contains(name + "=", "==")
  {
    var n := name + "=";
    forall j | 0 <= j <= |n| ensures !OccursAt(n, "==", j) {
      if j + 2 <= |n| {
        assert n[j..j + 2][0] == n[j] == name[j];
      }
    }
  }

  /** A token mentioning `git` is dropped even when it is a plain pin: the
      check is a substring test, so `digitalocean==1.0` is lost too. */
  lemma GitInNameDropped(line: string, digitalocean: string)
    requires digitalocean == "digitalocean==1.0"
    requires Token(line) == digitalocean
    ensures Entry(line) == None
  {
    assert OccursAt(digitalocean, "git", 2) by {
      assert digitalocean[2..5] == "git";
    }
  }

  // ---------------------------------------------------------------------
  // The whole file
  // ---------------------------------------------------------------------

  /** What each line contributes, line by line. */
  function Entries(lines: seq<string>): (es: seq<Option<(string, string)>>)
    ensures |es| == |lines|
    ensures forall i :: 0 <= i < |lines| ==> es[i] == Entry(lines[i])
  {
    seq(|lines|, i requires 0 <= i < |lines| => Entry(lines[i]))
  }

  /** The dictionary after storing `entries` in order: each entry is written
      over whatever an earlier one put under the same name. */
  function Store(entries: seq<Option<(string, string)>>): (reqs: map<string, string>)
    ensures |reqs| <= |entries|
  {
    if entries == [] then map[]
    else
      var before := Store(entries[..|entries| - 1]);
      match entries[|entries| - 1]
      case None => before
      case Some((name, version)) => before[name := version]
  }

  /** Reading one more line stores its entry, if any, over what was there. */
  lemma LoadStep(lines: seq<string>, i: nat, entry: Option<(string, string)>)
    requires i < |lines| && entry == Entry(lines[i])
    ensures entry.None? ==> Load(lines[..i + 1]) == Load(lines[..i])
    ensures entry.Some? ==> Load(lines[..i + 1]) == Load(lines[..i])[entry.value.0 := entry.value.1]
  {
    var es := Entries(lines[..i + 1]);
    assert es[..i] == Entries(lines[..i]);
    assert es[i] == entry;
  }

  /** The dictionary `load_requirements` returns. */
  function Load(lines: seq<string>): (reqs: map<string, string>)
    ensures |reqs| <= |lines|
  {
    Store(Entries(lines))
  }

  /** A name is in the dictionary exactly when some entry names it, and its
      version is the one the LAST such entry pins. */
  lemma {:induction false} StoreMeaning(entries: seq<Option<(string, string)>>, name: string)
    ensures name in Store(entries) <==>
      exists i :: 0 <= i < |entries| && entries[i].Some? && entries[i].value.0 == name
    ensures name in Store(entries) ==>
      exists i :: 0 <= i < |entries| && entries[i] == Some((name, Store(entries)[name]))
        && forall j :: i < j < |entries| ==> entries[j].None? || entries[j].value.0 != name
    decreases |entries|
  {
    if entries != [] {
      var n := |entries| - 1;
      var init := entries[..n];
      StoreMeaning(init, name);
      assert forall i :: 0 <= i < n ==> init[i] == entries[i];
      match entries[n]
      case None =>
      case Some((m, v)) =>
        if m != name && name in Store(entries) {
          var i :| 0 <= i < n && init[i] == Some((name, Store(init)[name]))
            && forall j :: i < j < n ==> init[j].None? || init[j].value.0 != name;
          assert entries[i] == Some((name, Store(entries)[name]));
        }
    }
  }

  /** The same, stated for the lines of a file. */
  lemma LoadMeaning(lines: seq<string>, name: string)
    ensures name in Load(lines) <==>
      exists i :: 0 <= i < |lines| && Entry(lines[i]).Some? && Entry(lines[i]).value.0 == name
    ensures name in Load(lines) ==>
      exists i :: 0 <= i < |lines| && Entry(lines[i]) == Some((name, Load(lines)[name]))
        && forall j :: i < j < |lines| ==> Entry(lines[j]).None? || Entry(lines[j]).value.0 != name
  {
    StoreMeaning(Entries(lines), name);
  }

  /** The dictionary loop of `load_requirements`. */
  method LoadRequirements(lines: seq<string>) returns (reqs: map<string, string>)
    ensures reqs == Load(lines)
  {
    reqs := map[];
    var i := 0;
    while i < |lines|
      invariant 0 <= i <= |lines|
      invariant reqs == Load(lines[..i])
    {
      var entry := Entry(lines[i]);
      LoadStep(lines, i, entry);
      if entry.Some? {
        reqs := reqs[entry.value.0 := entry.value.1];
      }
      i := i + 1;
    }
    assert lines[..|lines|] == lines;
  }

  // ---------------------------------------------------------------------
  // Total staleness
  // ---------------------------------------------------------------------

  /** The release-date lookup: the newest release's date for `None`, the
      given version's date otherwise; `None` when there is no date. */
  type ReleaseDates = (string, Option<string>) -> Option<int>

  /** The version argument as the lookup sees it: an empty pin is falsy, so
      it asks for the newest release instead. */
  function PinOf(version: string): (r: Option<string>)
    ensures r.None? <==> version == []
  {
    if version == [] then None else Some(version)
  }

  /** Days one requirement adds to the total: the whole days between its
      pinned release and the newest, when both dates are known. */
  function Lag(name: string, version: string, dates: ReleaseDates): (days: int)
    ensures version == [] ==> days == 0
    ensures dates(name, None).Some? && dates(name, PinOf(version)).Some? ==>
      var span := dates(name, None).value - dates(name, PinOf(version)).value;
      days * Report.SecondsPerDay <= span < days * Report.SecondsPerDay + Report.SecondsPerDay
  {
    match (dates(name, None), dates(name, PinOf(version)))
    case (Some(latest), Some(specified)) => Report.Days(latest, specified)
    case _ => 0
  }

  /** The sum of `Lag` over a set of names of the dictionary, in any order. */
  ghost function LagSum(names: set<string>, reqs: map<string, string>, dates: ReleaseDates): (total: int)
    requires names <= reqs.Keys
    ensures (forall name :: name in names ==> Lag(name, reqs[name], dates) == 0) ==> total == 0
    decreases names
  {
    if names == {} then 0
    else
      var name :| name in names;
      Lag(name, reqs[name], dates) + LagSum(names - {name}, reqs, dates)
  }

  /** Any name can be taken out of the sum first: the order in which the
      dictionary hands out its items does not matter. */
  lemma {:induction false} LagSumRemove(names: set<string>, reqs: map<string, string>, dates: ReleaseDates, name: string)
    requires names <= reqs.Keys && name in names
    ensures LagSum(names, reqs, dates) == Lag(name, reqs[name], dates) + LagSum(names - {name}, reqs, dates)
    decreases names
  {
    var other :| other in names && LagSum(names, reqs, dates) ==
      Lag(other, reqs[other], dates) + LagSum(names - {other}, reqs, dates);
    if other != name {
      LagSumRemove(names - {other}, reqs, dates, name);
      LagSumRemove(names - {name}, reqs, dates, other);
      assert names - {other} - {name} == names - {name} - {other};
    }
  }

  /** The `total_time_delta` loop over the dictionary's items. */
  method TotalTimeDelta(reqs: map<string, string>, dates: ReleaseDates) returns (total: int)
    ensures total == LagSum(reqs.Keys, reqs, dates)
  {
    total := 0;
    var remaining := reqs.Keys;
    while remaining != {}
      invariant remaining <= reqs.Keys
      invariant total + LagSum(remaining, reqs, dates) == LagSum(reqs.Keys, reqs, dates)
      decreases |remaining|
    {
      var name :| name in remaining;
      var version := reqs[name];
      var latest := dates(name, None);
      var specified := dates(name, PinOf(version));
      if latest.Some? && specified.Some? {
        total := total + Report.Days(latest.value, specified.value);
      }
      LagSumRemove(remaining, reqs, dates, name);
      remaining := remaining - {name};
    }
  }

  /** A positive total needs a requirement that is behind. */
  lemma {:induction false} PositiveTotalHasLag(names: set<string>, reqs: map<string, string>, dates: ReleaseDates)
    requires names <= reqs.Keys
    requires LagSum(names, reqs, dates) > 0
    ensures exists name :: name in names && Lag(name, reqs[name], dates) > 0
    decreases names
  {
    var name :| name in names;
    LagSumRemove(names, reqs, dates, name);
    if Lag(name, reqs[name], dates) <= 0 {
      PositiveTotalHasLag(names - {name}, reqs, dates);
    }
  }

  /** With no pin ahead of the newest release, one requirement that is
      behind makes the total positive. */
  lemma {:induction false} LagMakesTotalPositive(names: set<string>, reqs: map<string, string>, dates: ReleaseDates, behind: string)
    requires names <= reqs.Keys && behind in names
    requires forall name :: name in names ==> Lag(name, reqs[name], dates) >= 0
    requires Lag(behind, reqs[behind], dates) > 0
    ensures LagSum(names, reqs, dates) > 0
  {
    LagSumRemove(names, reqs, dates, behind);
    LagSumNonNegative(names - {behind}, reqs, dates);
  }

  lemma {:induction false} LagSumNonNegative(names: set<string>, reqs: map<string, string>, dates: ReleaseDates)
    requires names <= reqs.Keys
    requires forall name :: name in names ==> Lag(name, reqs[name], dates) >= 0
    ensures LagSum(names, reqs, dates) >= 0
    decreases names
  {
    if names != {} {
      var name :| name in names;
      LagSumRemove(names, reqs, dates, name);
      LagSumNonNegative(names - {name}, reqs, dates);
    }
  }

  /** An empty pin looks up the newest release twice, so it never lags. */
  lemma EmptyPinNeverLags(name: string, dates: ReleaseDates)
    ensures Lag(name, [], dates) == 0
  {
  }

  /** The closing message. */
  datatype Summary = OutOfDate(days: int) | KeepingUp

  /** Reading the file and reporting, as the `__main__` block does. */
  method Staleness(lines: seq<string>, dates: ReleaseDates) returns (summary: Summary)
    ensures summary.OutOfDate? <==> LagSum(Load(lines).Keys, Load(lines), dates) > 0
    ensures summary.OutOfDate? ==> summary.days == LagSum(Load(lines).Keys, Load(lines), dates)
    ensures summary.OutOfDate? ==> exists name :: name in Load(lines) && Lag(name, Load(lines)[name], dates) > 0
  {
    var reqs := LoadRequirements(lines);
    var total := TotalTimeDelta(reqs, dates);
    if total > 0 {
      PositiveTotalHasLag(reqs.Keys, reqs, dates);
      summary := OutOfDate(total);
    } else {
      summary := KeepingUp;
    }
  }
}
