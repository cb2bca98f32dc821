/**
  `parse_req_file`: the lines of a requirements file become a list of
  `(package, version, ignore)` entries. A line is first cut at its first `#`
  and stripped, then matched against

      \s*(?P<package>[^\s\[\]]+)(?P<extras>\[\S+\])?==(?P<version>\S+)

  at its start. A `-r other.txt` line pulls in the entries of the named file
  (recursively), and in verbatim mode every other line is kept as
  `(None, line, ignore)`.

  Opening files is an input here: `files` maps the name the code computes
  for an include line (every `-r` of the comment-free line deleted, then the
  rest stripped) to the lines `readlines()` would return for it, and a name
  missing from the map is the `IOError` branch. Python's recursion limit is a
  `fuel` count of nested includes; running out of it is the `RecursionError`
  a cyclic include raises, and the whole parse then has no result (`None`).
*/
module ReqFile {
  import opened Wrappers
  import opened Text

  /** One element of the list `parse_req_file` returns: `(package, version,
      ignore)` for a requirement, `(None, raw line, ignore)` for a line kept
      verbatim. */
  datatype Entry = Entry(name: Option<string>, spec: string, ignore: bool)

  /** The `package` and `version` groups of a successful match. */
  datatype Requirement = Requirement(package: string, version: string)

  // ---------------------------------------------------------------------
  // The regular expression

  /** `[^\s\[\]]`: the characters a package name is made of. */
  predicate IsNameChar(c: char) {
    !IsSpace(c) && c != '[' && c != ']'
  }

  /** Length of the longest prefix of `s` made of name characters: where the
      greedy `[^\s\[\]]+` stops before it backtracks. */
  function NameRun(s: string): (n: nat)
    ensures n <= |s|
  {
    if s != [] && IsNameChar(s[0]) then 1 + NameRun(s[1..]) else 0
  }

  /** The name run is made of name characters and cannot be extended. */
  lemma {:induction false} NameRunMaximal(s: string)
    ensures forall i :: 0 <= i < NameRun(s) ==> IsNameChar(s[i])
    ensures NameRun(s) == |s| || !IsNameChar(s[NameRun(s)])
  {
    if s != [] && IsNameChar(s[0]) {
      NameRunMaximal(s[1..]);
    }
  }

  /** End of the longest run of non-space characters starting at `i`: what
      the greedy `\S+` of the version group takes. */
  function NonSpaceRun(s: string, i: nat): (e: nat)
    requires i <= |s|
    ensures i <= e <= |s|
    decreases |s| - i
  {
    if i < |s| && !IsSpace(s[i]) then NonSpaceRun(s, i + 1) else i
  }

  /** The version run has no whitespace and stops only at whitespace or at
      the end. */
  lemma {:induction false} NonSpaceRunMaximal(s: string, i: nat)
    requires i <= |s|
    ensures forall k :: i <= k < NonSpaceRun(s, i) ==> !IsSpace(s[k])
    ensures NonSpaceRun(s, i) == |s| || IsSpace(s[NonSpaceRun(s, i)])
    decreases |s| - i
  {
    if i < |s| && !IsSpace(s[i]) {
      NonSpaceRunMaximal(s, i + 1);
    }
  }

  /** `s[p..q]` is an `[extras]` group: a bracket, at least one non-space
      character, a closing bracket. */
  predicate Extras(s: string, p: nat, q: nat)
    requires p <= q <= |s|
  {
    && p + 3 <= q
    && s[p] == '['
    && s[q - 1] == ']'
    && forall k :: p + 1 <= k < q - 1 ==> !IsSpace(s[k])
  }

  /** The pattern (after `\s*`) can match at the start of `s` with the
      package group `s[..p]`, the optional extras `s[p..q]` (absent when
      `q == p`) and the `==` at `q`, followed by at least one version
      character. */
  predicate SplitsAt(s: string, p: nat, q: nat) {
    && 1 <= p <= q
    && q + 2 < |s|
    && (forall k :: 0 <= k < p ==> IsNameChar(s[k]))
    && (q == p || Extras(s, p, q))
    && s[q] == '=' && s[q + 1] == '='
    && !IsSpace(s[q + 2])
  }

  /** `(p, q)` comes no later than `(p', q')` in lexicographic order. */
  predicate LexAtMost(p: nat, q: nat, p': nat, q': nat) {
    p < p' || (p == p' && q <= q')
  }

  /** Extras can only follow the whole name run: the character at `p` is a
      bracket, and no name character is. */
  lemma ExtrasFollowNameRun(s: string, p: nat, q: nat)
    requires SplitsAt(s, p, q) && q != p
    ensures p == NameRun(s)
  {
    NameRunMaximal(s);
  }

  /** No split has its package past the name run. */
  lemma SplitWithinNameRun(s: string, p: nat, q: nat)
    requires SplitsAt(s, p, q)
    ensures p <= NameRun(s)
  {
    NameRunMaximal(s);
  }

  /** The backtracking search for the extras: the largest `q' <= q`, beyond
      `p`, at which `[extras]==` fits. */
  function LastExtras(s: string, p: nat, q: nat): (r: Option<nat>)
    ensures r.Some? ==> p < r.value <= q && r.value + 2 < |s|
    decreases q
  {
    if q <= p then None
    else if SplitsAt(s, p, q) then Some(q)
    else LastExtras(s, p, q - 1)
  }

  /** The extras search finds a fitting end, and the largest one. */
  lemma {:induction false} LastExtrasLargest(s: string, p: nat, q: nat)
    ensures LastExtras(s, p, q).Some? ==> SplitsAt(s, p, LastExtras(s, p, q).value)
    ensures forall q' :: p < q' <= q && SplitsAt(s, p, q') ==>
      LastExtras(s, p, q).Some? && q' <= LastExtras(s, p, q).value
    decreases q
  {
    if q > p && !SplitsAt(s, p, q) {
      LastExtrasLargest(s, p, q - 1);
    }
  }

  /** The backtracking search without extras: the longest package
      `s[..p']`, `p' <= p`, that `==` follows. */
  function LastPlain(s: string, p: nat): (r: Option<nat>)
    ensures r.Some? ==> 1 <= r.value <= p && r.value + 2 < |s|
    decreases p
  {
    if p == 0 then None
    else if SplitsAt(s, p, p) then Some(p)
    else LastPlain(s, p - 1)
  }

  /** The plain search finds a fitting package end, and the largest one. */
  lemma {:induction false} LastPlainLargest(s: string, p: nat)
    ensures LastPlain(s, p).Some? ==> SplitsAt(s, LastPlain(s, p).value, LastPlain(s, p).value)
    ensures forall p' :: 1 <= p' <= p && SplitsAt(s, p', p') ==>
      LastPlain(s, p).Some? && p' <= LastPlain(s, p).value
    decreases p
  {
    if p > 0 && !SplitsAt(s, p, p) {
      LastPlainLargest(s, p - 1);
    }
  }

  /** The split the regular-expression engine settles on: the greedy
      package first, with extras (longest first) and then without, then
      ever shorter packages. */
  function FindSplit(s: string): (r: Option<(nat, nat)>)
    ensures r.Some? ==> SplitsAt(s, r.value.0, r.value.1)
  {
    var m := NameRun(s);
    LastExtrasLargest(s, m, |s|);
    LastPlainLargest(s, m);
    match LastExtras(s, m, |s|)
    case Some(q) => Some((m, q))
    case None =>
      match LastPlain(s, m)
      case Some(p) => Some((p, p))
      case None => None
  }

  /** The engine's choice is the greatest split in lexicographic order, and
      there is one whenever any split exists. */
  lemma FindSplitGreatest(s: string, p: nat, q: nat)
    requires SplitsAt(s, p, q)
    ensures FindSplit(s).Some?
    ensures LexAtMost(p, q, FindSplit(s).value.0, FindSplit(s).value.1)
  {
    var m := NameRun(s);
    SplitWithinNameRun(s, p, q);
    LastExtrasLargest(s, m, |s|);
    LastPlainLargest(s, m);
    if q != p {
      ExtrasFollowNameRun(s, p, q);
    }
  }

  /** Only one split is greatest. */
  lemma GreatestSplitUnique(s: string, p: nat, q: nat)
    requires SplitsAt(s, p, q)
    requires forall p', q' :: SplitsAt(s, p', q') ==> LexAtMost(p', q', p, q)
    ensures FindSplit(s) == Some((p, q))
  {
    FindSplitGreatest(s, p, q);
    var (p', q') := FindSplit(s).value;
    assert LexAtMost(p', q', p, q);
  }

  /** The groups a split gives: a non-empty package of name characters
      and a non-empty version without whitespace. */
  function Groups(s: string, p: nat, q: nat): (r: Requirement)
    requires SplitsAt(s, p, q)
    ensures r.package != [] && forall k :: 0 <= k < |r.package| ==> IsNameChar(r.package[k])
    ensures r.version != [] && NoSpace(r.version)
  {
    var e := NonSpaceRun(s, q + 2);
    NonSpaceRunMaximal(s, q + 2);
    var version := s[q + 2..e];
    assert NoSpace(version) by {
      forall k | 0 <= k < |version| ensures !IsSpace(version[k]) {
        assert version[k] == s[q + 2 + k];
      }
    }
    Requirement(s[..p], version)
  }

  /** `re.match` of the requirement pattern. The leading `\s*` skips all
      leading whitespace: giving any back would leave a space at the start
      of the package. A match has a non-empty package of name characters
      and a non-empty version without whitespace. */
  function MatchRequirement(t: string): (r: Option<Requirement>)
    ensures r.Some? ==> r.value.package != [] && r.value.version != [] && NoSpace(r.value.version)
    ensures r.Some? ==> forall k :: 0 <= k < |r.value.package| ==> IsNameChar(r.value.package[k])
  {
    var s := TrimStart(t, IsSpace);
    match FindSplit(s)
    case None => None
    case Some((p, q)) => Some(Groups(s, p, q))
  }

  /** A match exists exactly when some split exists (after leading
      whitespace). */
  lemma MatchIffSplit(t: string)
    ensures MatchRequirement(t).Some? <==>
      exists p, q :: SplitsAt(TrimStart(t, IsSpace), p, q)
  {
    var s := TrimStart(t, IsSpace);
    if exists p, q :: SplitsAt(s, p, q) {
      var p, q :| SplitsAt(s, p, q);
      FindSplitGreatest(s, p, q);
    }
    if FindSplit(s).Some? {
      var (p, q) := FindSplit(s).value;
      assert SplitsAt(s, p, q);
    }
  }

  /** A version run that reaches the end of the string ends there. */
  lemma {:induction false} NonSpaceRunToEnd(s: string, i: nat)
    requires i <= |s|
    requires forall k :: i <= k < |s| ==> !IsSpace(s[k])
    ensures NonSpaceRun(s, i) == |s|
    decreases |s| - i
  {
    if i < |s| {
      NonSpaceRunToEnd(s, i + 1);
    }
  }

  /** When `==` at `q` is the last `==` that a non-`=` character follows,
      and the extras (if any) open at `p`, no split is greater than
      `(p, q)`. */
  lemma LastEqualsGreatest(s: string, p: nat, q: nat)
    requires p <= q && q + 2 < |s|
    requires s[q] == '=' && s[q + 1] == '=' && s[q + 2] != '='
    requires forall k :: q + 2 <= k < |s| - 1 ==> !(s[k] == '=' && s[k + 1] == '=')
    requires p == q || s[p] == '['
    ensures forall p': nat, q': nat :: SplitsAt(s, p', q') ==> LexAtMost(p', q', p, q)
  {
    forall p': nat, q': nat | SplitsAt(s, p', q') ensures LexAtMost(p', q', p, q) {
      assert q' <= q;
      assert p' <= p || p == q;
    }
  }

  /** `name==version` reads back as that name and version, as long as the
      version cannot itself be read as part of the name: it does not start
      with `=` and holds no `==`. */
  lemma MatchRoundTrip(name: string, version: string)
    requires name != [] && forall k :: 0 <= k < |name| ==> IsNameChar(name[k])
    requires version != [] && NoSpace(version) && version[0] != '='
    requires forall k :: 0 <= k < |version| - 1 ==> !(version[k] == '=' && version[k + 1] == '=')
    ensures MatchRequirement(name + "==" + version) == Some(Requirement(name, version))
  {
    var s := name + "==" + version;
    var n := |name|;
    assert s[..n] == name;
    assert s[n + 2..] == version;
    forall k | n + 2 <= k < |s| ensures s[k] == version[k - n - 2] {
    }
    assert TrimStart(s, IsSpace) == s by {
      assert !IsSpace(s[0]);
    }
    assert SplitsAt(s, n, n);
    LastEqualsGreatest(s, n, n);
    GreatestSplitUnique(s, n, n);
    NonSpaceRunToEnd(s, n + 2);
    assert s[n + 2..|s|] == version;
  }

  /** Where `name[extras]==version` splits, and what follows the `==`. */
  lemma ExtrasLineSplit(name: string, inner: string, version: string, s: string)
    requires name != [] && forall k :: 0 <= k < |name| ==> IsNameChar(name[k])
    requires inner != [] && NoSpace(inner)
    requires version != [] && NoSpace(version) && version[0] != '='
    requires forall k :: 0 <= k < |version| - 1 ==> !(version[k] == '=' && version[k + 1] == '=')
    requires s == name + "[" + inner + "]" + "==" + version
    ensures var n, e := |name|, |name| + |inner| + 2;
      && SplitsAt(s, n, e) && s[e + 2] != '='
      && (forall k :: e + 2 <= k < |s| - 1 ==> !(s[k] == '=' && s[k + 1] == '='))
      && (forall k :: e + 2 <= k < |s| ==> !IsSpace(s[k]))
  {
    var n := |name|;
    var e := n + |inner| + 2;
    forall k | e + 2 <= k < |s| ensures s[k] == version[k - e - 2] {
    }
    forall k | n + 1 <= k < e - 1 ensures !IsSpace(s[k]) {
      assert s[k] == inner[k - n - 1];
    }
  }

  /** The groups of `name[extras]==version`, and no leading whitespace. */
  lemma ExtrasLineParts(name: string, inner: string, version: string, s: string)
    requires name != [] && !IsSpace(name[0])
    requires s == name + "[" + inner + "]" + "==" + version
    ensures var n, e := |name|, |name| + |inner| + 2;
      && s[..n] == name && e + 2 <= |s| && s[e + 2..|s|] == version
      && TrimStart(s, IsSpace) == s
  {
    var a := name + "[";
    var b := a + inner;
    var c := b + "]";
    var d := c + "==";
    assert s == d + version;
    assert s[|d|..] == version;
    assert a[..|name|] == name;
    assert b[..|name|] == name;
    assert c[..|name|] == name;
    assert d[..|name|] == name;
    assert s[0] == name[0];
    TrimStartKeeps(s, IsSpace);
  }

  /** `name[extras]==version` reads back as that name and version: the
      extras are matched and dropped. */
  lemma MatchRoundTripExtras(name: string, inner: string, version: string)
    requires name != [] && forall k :: 0 <= k < |name| ==> IsNameChar(name[k])
    requires inner != [] && NoSpace(inner)
    requires version != [] && NoSpace(version) && version[0] != '='
    requires forall k :: 0 <= k < |version| - 1 ==> !(version[k] == '=' && version[k + 1] == '=')
    ensures MatchRequirement(name + "[" + inner + "]" + "==" + version) == Some(Requirement(name, version))
  {
    var s := name + "[" + inner + "]" + "==" + version;
    var n := |name|;
    var e := n + |inner| + 2;
    ExtrasLineSplit(name, inner, version, s);
    ExtrasLineParts(name, inner, version, s);
    LastEqualsGreatest(s, n, e);
    GreatestSplitUnique(s, n, e);
    NonSpaceRunToEnd(s, e + 2);
  }

  /** The pattern is greedy: in `a==b==c` the package is `a==b`. */
  lemma GreedyPackage(name: string, version: string)
    requires name == "a==b" && version == "c"
    ensures MatchRequirement(name + "==" + version) == Some(Requirement("a==b", "c"))
  {
    assert forall k :: 0 <= k < |name| ==> IsNameChar(name[k]);
    MatchRoundTrip(name, version);
  }

  /** Extras are matched and dropped: `pkg[ssl]==1.0` is `pkg`, `1.0`. */
  lemma ExtrasDropped(name: string, inner: string, version: string)
    requires name == "pkg" && inner == "ssl" && version == "1.0"
    ensures MatchRequirement(name + "[" + inner + "]" + "==" + version) == Some(Requirement("pkg", "1.0"))
  {
    assert forall k :: 0 <= k < |name| ==> IsNameChar(name[k]);
    NoEqualsNoPair(version);
    MatchRoundTripExtras(name, inner, version);
  }

  /** A string without `=` holds no `==`. */
  lemma NoEqualsNoPair(v: string)
    requires '=' !in v
    ensures forall k :: 0 <= k < |v| - 1 ==> !(v[k] == '=' && v[k + 1] == '=')
  {
    forall k | 0 <= k < |v| - 1 ensures v[k] != '=' {
      assert v[k] in v;
    }
  }

  // ---------------------------------------------------------------------
  // One line

  /** `requirement.split("#")[0].strip()`. */
  function NoComment(line: string): string {
    Strip(Before(line, '#'))
  }

  /** `requirement.strip().endswith("  # norot")`. */
  predicate Ignored(line: string) {
    EndsWith(Strip(line), "  # norot")
  }

  /** The file name of an include line as the source computes it:
      `replace("-r", "")` deletes EVERY `-r` of the text, not only the
      leading one, before stripping. */
  function IncludeTargetAsWritten(nc: string): (f: string)
    ensures !Contains(nc, "-r") ==> f == Strip(nc)
  {
    Strip(RemoveAll(nc, "-r"))
  }

  /** The file name the include line evidently names: the text after the
      leading `-r`, stripped. */
  function IncludeTarget(nc: string): (f: string)
    requires StartsWith(nc, "-r")
    ensures |f| <= |nc| - 2
  {
    Strip(nc[2..])
  }

  /** The intended name is whatever follows the leading `-r`, stripped,
      whatever it holds. */
  lemma IncludeTargetKeepsName(d: string, w: string)
    requires d == "-r"
    ensures IncludeTarget(d + w) == Strip(w)
  {
    assert (d + w)[..2] == d && (d + w)[2..] == w;
  }

  /** A name written after `-r ` is opened as written, even when it holds
      `-r` itself. */
  lemma IncludeTargetSpacedName(d: string, w: string)
    requires d == "-r"
    requires w != [] && !IsSpace(w[0]) && !IsSpace(w[|w| - 1])
    ensures IncludeTarget(d + " " + w) == w
  {
    var nc := d + " " + w;
    assert nc[..2] == d && nc[2..] == [' '] + w;
    StripLeadingSpace(' ', w);
  }

  /** The two computations on `d a d b`, for a two-character `d` whose
      first character occurs in neither `a` nor `b`. */
  lemma InnerPatternRemoved(d: string, a: string, b: string, nc: string)
    requires |d| == 2 && d[0] != ' ' && a != [] && b != [] && NoSpace(a) && NoSpace(b)
    requires d[0] !in a && d[0] !in b
    requires nc == d + [' '] + a + d + b
    ensures Strip(nc[2..]) == a + d + b
    ensures Strip(RemoveAll(nc, d)) == a + b
  {
    var f := a + d + b;
    assert nc[2..] == [' '] + f;
    assert f[|f| - 1] == b[|b| - 1];
    StripLeadingSpace(' ', f);
    BothRemoved(d, a, b, nc);
    JoinedAfterSpace(a, b);
  }

  lemma JoinedAfterSpace(a: string, b: string)
    requires a != [] && b != [] && NoSpace(a) && NoSpace(b)
    ensures Strip([' '] + a + b) == a + b
  {
    assert [' '] + a + b == [' '] + (a + b);
    assert (a + b)[|a + b| - 1] == b[|b| - 1];
    StripLeadingSpace(' ', a + b);
  }

  lemma BothRemoved(d: string, a: string, b: string, nc: string)
    requires |d| == 2 && d[0] != ' '
    requires d[0] !in a && d[0] !in b
    requires nc == d + [' '] + a + d + b
    ensures RemoveAll(nc, d) == [' '] + a + b
  {
    LeadingPatternRemoved(d, a, b, nc);
    InnerPatternStep(d, a, b);
    NoFirstCharNoOccurrence(b, d);
  }

  lemma LeadingPatternRemoved(d: string, a: string, b: string, nc: string)
    requires |d| == 2 && d[0] != ' '
    requires nc == d + [' '] + a + d + b
    ensures RemoveAll(nc, d) == RemoveAll([' '] + a + d + b, d)
  {
    var f := a + d + b;
    var rest := [' '] + a + d + b;
    assert [' '] + f == rest;
    assert nc == [] + d + ([' '] + f);
    RemoveAllStep([], d, rest);
    assert [] + RemoveAll(rest, d) == RemoveAll(rest, d);
  }

  lemma InnerPatternStep(d: string, a: string, b: string)
    requires |d| == 2 && d[0] != ' ' && d[0] !in a
    ensures RemoveAll([' '] + a + d + b, d) == [' '] + a + RemoveAll(b, d)
  {
    FirstCharAbsent([' '] + a, d);
    RemoveAllStep([' '] + a, d, b);
  }

  /** `-r a-rb` asks for `a-rb`, but the source deletes the inner `-r`
      too and looks for `ab`. */
  lemma IncludeTargetMangled(a: string, b: string)
    requires a != [] && b != [] && NoSpace(a) && NoSpace(b)
    requires '-' !in a && '-' !in b
    ensures IncludeTarget("-r " + a + "-r" + b) == a + "-r" + b
    ensures IncludeTargetAsWritten("-r " + a + "-r" + b) == a + b
  {
    var d := "-r";
    assert "-r " == d + [' '];
    InnerPatternRemoved(d, a, b, "-r " + a + "-r" + b);
  }

  /** For the include line `-r dev-requirements.txt` the source's file
      name and the intended one differ. */
  lemma DevRequirementsMangled(a: string, b: string)
    requires a == "dev" && b == "equirements.txt"
    ensures IncludeTargetAsWritten("-r " + a + "-r" + b) != IncludeTarget("-r " + a + "-r" + b)
  {
    assert NoSpace(a) && NoSpace(b);
    assert '-' !in a && '-' !in b;
    IncludeTargetMangled(a, b);
  }

  /** When the file name holds no `-r`, the source's computation and the
      intended one agree. */
  lemma IncludeTargetsAgree(f: string)
    requires f != [] && !IsSpace(f[0]) && !IsSpace(f[|f| - 1])
    requires !Contains(f, "-r")
    ensures IncludeTarget("-r " + f) == f
    ensures IncludeTargetAsWritten("-r " + f) == f
  {
    var d := "-r";
    var nc := "-r " + f;
    assert nc == [] + d + ([' '] + f);
    assert nc[2..] == [' '] + f;
    StripLeadingSpace(' ', f);
    RemoveAllStep([], d, [' '] + f);
    NoOccurrenceAfter(' ', f, d);
    assert RemoveAll(nc, d) == [' '] + f;
  }

  /** What the line loop makes of one line: a requirement match, an
      include (`-r`) line with the file it names, or any other line. Each
      carries the raw line's `norot` flag. */
  datatype Line =
    | Matched(req: Requirement, ignore: bool)
    | Include(target: string, raw: string, ignore: bool)
    | Other(raw: string, ignore: bool)

  /** The branch of the loop body a line takes: a requirement match comes
      first, and only a line that does not match and starts with `-r` once
      the comment is cut is an include. */
  function Classify(line: string): (l: Line)
    ensures l.ignore == Ignored(line)
    ensures !l.Matched? ==> l.raw == line
    ensures l.Include? ==> MatchRequirement(NoComment(line)).None? && StartsWith(NoComment(line), "-r")
  {
    var nc := NoComment(line);
    match MatchRequirement(nc)
    case Some(req) => Matched(req, Ignored(line))
    case None =>
      if StartsWith(nc, "-r") then Include(IncludeTargetAsWritten(nc), line, Ignored(line))
      else Other(line, Ignored(line))
  }

  /** `f` applied to every element, in order. */
  function Map<A, B>(f: A -> B, s: seq<A>): (r: seq<B>)
    ensures |r| == |s|
  {
    seq(|s|, k requires 0 <= k < |s| => f(s[k]))
  }

  lemma {:induction false} MapAt<A, B>(f: A -> B, s: seq<A>, k: nat)
    requires k < |s|
    ensures Map(f, s)[k] == f(s[k])
  {
    if k < |s| - 1 {
      MapAt(f, s[..|s| - 1], k);
    }
  }

  lemma {:induction false} MapAppend<A, B>(f: A -> B, a: seq<A>, b: seq<A>)
    ensures Map(f, a + b) == Map(f, a) + Map(f, b)
    decreases |b|
  {
    if b == [] {
      assert a + b == a;
    } else {
      var b' := b[..|b| - 1];
      assert (a + b)[..|a + b| - 1] == a + b';
      assert (a + b)[|a + b| - 1] == b[|b| - 1];
      MapAppend(f, a, b');
    }
  }

  /** The classification of every line of a file, in order. */
  function ClassifyAll(lines: seq<string>): (ls: seq<Line>)
    ensures |ls| == |lines|
  {
    Map(Classify, lines)
  }

  /** Every line keeps its `norot` flag, the raw text of a line that is
      not a requirement is kept as read, and a requirement has a name and a
      version without whitespace. */
  lemma ClassifyShape(line: string)
    ensures Classify(line).ignore == Ignored(line)
    ensures !Classify(line).Matched? ==> Classify(line).raw == line
    ensures Classify(line).Matched? ==>
      Classify(line).req.package != [] && NoSpace(Classify(line).req.version)
  {
  }

  /** Every requirement a classified line holds has a name and a version
      without whitespace. */
  predicate WellFormed(ls: seq<Line>) {
    forall k :: 0 <= k < |ls| && ls[k].Matched? ==>
      ls[k].req.package != [] && NoSpace(ls[k].req.version)
  }

  lemma ClassifyAllWellFormed(lines: seq<string>)
    ensures WellFormed(ClassifyAll(lines))
  {
    forall k | 0 <= k < |lines|
      ensures ClassifyAll(lines)[k].Matched? ==>
        ClassifyAll(lines)[k].req.package != [] && NoSpace(ClassifyAll(lines)[k].req.version)
    {
      MapAt(Classify, lines, k);
      ClassifyShape(lines[k]);
    }
  }

  // ---------------------------------------------------------------------
  // Whole files

  /** Appends the entries of a line to those gathered so far; a parse that
      has failed stays failed. */
  function Then(acc: Option<seq<Entry>>, more: Option<seq<Entry>>): (r: Option<seq<Entry>>)
    ensures r.Some? <==> acc.Some? && more.Some?
    ensures r.Some? ==> r.value == acc.value + more.value
  {
    if acc.Some? && more.Some? then Some(acc.value + more.value) else None
  }

  lemma ThenAssociative(x: Option<seq<Entry>>, y: Option<seq<Entry>>, z: Option<seq<Entry>>)
    ensures Then(Then(x, y), z) == Then(x, Then(y, z))
  {
    if x.Some? && y.Some? && z.Some? {
      assert (x.value + y.value) + z.value == x.value + (y.value + z.value);
    }
  }

  /** The entries one line contributes. `named` says whether the file being
      read has a name to resolve includes against: the in-memory file built
      from a download has none, and its include lines are skipped. `sources`
      holds the classified lines of every file an include can open; a name
      it lacks is the `IOError` branch, where only the verbatim copy of the
      include line is kept. */
  function LineEntries(l: Line, named: bool, sources: map<string, seq<Line>>,
                       verbatim: bool, fuel: nat): (r: Option<seq<Entry>>)
    ensures !named ==> r.Some?
    ensures r.None? ==> l.Include? && named && l.target in sources
    decreases fuel, 0, 0
  {
    match l
    case Matched(req, ignore) => Some([Entry(Some(req.package), req.version, ignore)])
    case Other(raw, ignore) => Some(if verbatim then [Entry(None, raw, ignore)] else [])
    case Include(target, raw, ignore) =>
      if !named then Some([])
      else
        var head := if verbatim then [Entry(None, raw, ignore)] else [];
        if target !in sources then Some(head)
        else if fuel == 0 then None
        else Then(Some(head), LinesEntries(sources[target], true, sources, verbatim, fuel - 1))
  }

  /** The entries of a run of classified lines, or `None` once an include
      cycle exhausts the recursion limit. */
  function LinesEntries(ls: seq<Line>, named: bool, sources: map<string, seq<Line>>,
                        verbatim: bool, fuel: nat): (r: Option<seq<Entry>>)
    ensures !named ==> r.Some?
    decreases fuel, 1, |ls|
  {
    if ls == [] then Some([])
    else Then(LinesEntries(ls[..|ls| - 1], named, sources, verbatim, fuel),
              LineEntries(ls[|ls| - 1], named, sources, verbatim, fuel))
  }

  /** The classified lines of every file an include can open. */
  function ClassifyFiles(files: map<string, seq<string>>): (sources: map<string, seq<Line>>)
    ensures sources.Keys == files.Keys
  {
    map f | f in files :: ClassifyAll(files[f])
  }

  /** The list `parse_req_file` returns for a file with these lines, when
      `files` maps each name an include line can give to the lines of that
      file. */
  function FileEntries(lines: seq<string>, named: bool, files: map<string, seq<string>>,
                       verbatim: bool, fuel: nat): (r: Option<seq<Entry>>)
    ensures !named ==> r.Some?
  {
    LinesEntries(ClassifyAll(lines), named, ClassifyFiles(files), verbatim, fuel)
  }

  /** Reading two runs of lines one after the other gives the entries of
      the first followed by those of the second. */
  lemma {:induction false} LinesEntriesAppend(a: seq<Line>, b: seq<Line>, named: bool,
                                              sources: map<string, seq<Line>>, verbatim: bool, fuel: nat)
    ensures LinesEntries(a + b, named, sources, verbatim, fuel) ==
      Then(LinesEntries(a, named, sources, verbatim, fuel), LinesEntries(b, named, sources, verbatim, fuel))
    decreases |b|
  {
    var x := LinesEntries(a, named, sources, verbatim, fuel);
    if b == [] {
      assert a + b == a;
      assert x.Some? ==> x.value + [] == x.value;
    } else {
      var b' := b[..|b| - 1];
      assert (a + b)[..|a + b| - 1] == a + b';
      assert (a + b)[|a + b| - 1] == b[|b| - 1];
      LinesEntriesAppend(a, b', named, sources, verbatim, fuel);
      var y := LinesEntries(b', named, sources, verbatim, fuel);
      var z := LineEntries(b[|b| - 1], named, sources, verbatim, fuel);
      assert LinesEntries(a + b, named, sources, verbatim, fuel) == Then(Then(x, y), z);
      ThenAssociative(x, y, z);
    }
  }

  /** The same for the lines of a file. */
  lemma FileEntriesAppend(a: seq<string>, b: seq<string>, named: bool,
                          files: map<string, seq<string>>, verbatim: bool, fuel: nat)
    ensures FileEntries(a + b, named, files, verbatim, fuel) ==
      Then(FileEntries(a, named, files, verbatim, fuel), FileEntries(b, named, files, verbatim, fuel))
  {
    MapAppend(Classify, a, b);
    LinesEntriesAppend(ClassifyAll(a), ClassifyAll(b), named, ClassifyFiles(files), verbatim, fuel);
  }

  /** One more line adds the entries of that line. */
  lemma LinesEntriesStep(ls: seq<Line>, i: nat, named: bool,
                         sources: map<string, seq<Line>>, verbatim: bool, fuel: nat)
    requires i < |ls|
    ensures LinesEntries(ls[..i + 1], named, sources, verbatim, fuel) ==
      Then(LinesEntries(ls[..i], named, sources, verbatim, fuel),
           LineEntries(ls[i], named, sources, verbatim, fuel))
  {
    assert ls[..i + 1][..i] == ls[..i];
  }

  lemma WholePrefix(ls: seq<Line>)
    ensures ls[..|ls|] == ls
  {
  }

  /** Once a prefix of the lines has no result, neither has the file: the
      `RecursionError` ends the whole parse. */
  lemma FailureIsFinal(ls: seq<Line>, i: nat, named: bool,
                       sources: map<string, seq<Line>>, verbatim: bool, fuel: nat)
    requires i <= |ls|
    requires LinesEntries(ls[..i], named, sources, verbatim, fuel).None?
    ensures LinesEntries(ls, named, sources, verbatim, fuel).None?
  {
    assert ls[..i] + ls[i..] == ls;
    LinesEntriesAppend(ls[..i], ls[i..], named, sources, verbatim, fuel);
  }

  /** Every file an include can open classifies into well-formed lines. */
  lemma ClassifyFilesWellFormed(files: map<string, seq<string>>)
    ensures forall f :: f in ClassifyFiles(files) ==> WellFormed(ClassifyFiles(files)[f])
  {
    forall f | f in ClassifyFiles(files) ensures WellFormed(ClassifyFiles(files)[f]) {
      ClassifyAllWellFormed(files[f]);
    }
  }

  /** Outside verbatim mode every entry, included files' too, is a named
      requirement whose version has no whitespace. */
  lemma {:induction false} NamedOutsideVerbatim(ls: seq<Line>, named: bool,
                                                sources: map<string, seq<Line>>, fuel: nat)
    requires WellFormed(ls)
    requires forall f :: f in sources ==> WellFormed(sources[f])
    ensures LinesEntries(ls, named, sources, false, fuel).Some? ==>
      forall e :: e in LinesEntries(ls, named, sources, false, fuel).value ==>
        e.name.Some? && e.name.value != [] && NoSpace(e.spec)
    decreases fuel, 1, |ls|
  {
    if ls != [] {
      var l := ls[|ls| - 1];
      NamedOutsideVerbatim(ls[..|ls| - 1], named, sources, fuel);
      if l.Include? && named && l.target in sources && fuel > 0 {
        NamedOutsideVerbatim(sources[l.target], true, sources, fuel - 1);
      }
    }
  }

  /** The same for a whole file and the files it includes. */
  lemma FileNamedOutsideVerbatim(lines: seq<string>, named: bool,
                                 files: map<string, seq<string>>, fuel: nat)
    ensures FileEntries(lines, named, files, false, fuel).Some? ==>
      forall e :: e in FileEntries(lines, named, files, false, fuel).value ==>
        e.name.Some? && e.name.value != [] && NoSpace(e.spec)
  {
    ClassifyAllWellFormed(lines);
    ClassifyFilesWellFormed(files);
    NamedOutsideVerbatim(ClassifyAll(lines), named, ClassifyFiles(files), fuel);
  }

  /** In verbatim mode a run without include lines gives exactly one entry
      per line, in order: its requirement, or the raw line, with the line's
      `norot` flag. */
  lemma {:induction false} VerbatimOnePerLine(ls: seq<Line>, named: bool,
                                              sources: map<string, seq<Line>>, fuel: nat)
    requires forall k :: 0 <= k < |ls| ==> !ls[k].Include?
    ensures LinesEntries(ls, named, sources, true, fuel).Some?
    ensures |LinesEntries(ls, named, sources, true, fuel).value| == |ls|
    ensures forall k :: 0 <= k < |ls| ==>
      var e := LinesEntries(ls, named, sources, true, fuel).value[k];
      && e.ignore == ls[k].ignore
      && (e.name.Some? <==> ls[k].Matched?)
      && e.spec == (if ls[k].Matched? then ls[k].req.version else ls[k].raw)
    decreases |ls|
  {
    if ls != [] {
      VerbatimOnePerLine(ls[..|ls| - 1], named, sources, fuel);
    }
  }

  /** The entries of the requirement lines, in order. */
  function Requirements(ls: seq<Line>): seq<Entry> {
    if ls == [] then []
    else
      var last := ls[|ls| - 1];
      Requirements(ls[..|ls| - 1]) +
        (if last.Matched? then [Entry(Some(last.req.package), last.req.version, last.ignore)] else [])
  }

  /** Outside verbatim mode a run without include lines gives exactly its
      requirements, in order. */
  lemma {:induction false} RequirementsOnly(ls: seq<Line>, named: bool,
                                            sources: map<string, seq<Line>>, fuel: nat)
    requires forall k :: 0 <= k < |ls| ==> !ls[k].Include?
    ensures LinesEntries(ls, named, sources, false, fuel) == Some(Requirements(ls))
    decreases |ls|
  {
    if ls != [] {
      RequirementsOnly(ls[..|ls| - 1], named, sources, fuel);
    }
  }

  /** A line without `#` is never marked `norot`. */
  lemma NoHashNotIgnored(line: string)
    requires '#' !in line
    ensures !Ignored(line)
  {
    var tag := "  # norot";
    assert tag[2] == '#';
    AbsentCharNoSuffix(Strip(line), tag, 2);
  }

  /** A line without `#` and without surrounding whitespace is its own
      comment-free text. */
  lemma NoCommentOfPlainLine(line: string)
    requires '#' !in line
    requires line == [] || (!IsSpace(line[0]) && !IsSpace(line[|line| - 1]))
    ensures NoComment(line) == line
  {
    BeforeAbsent(line, '#');
    StripTrimmed(line);
  }

  /** The line `name==version`, with no comment and no `norot` mark, is a
      requirement line for that name and version. */
  lemma ClassifyRequirementLine(name: string, version: string)
    requires name != [] && forall k :: 0 <= k < |name| ==> IsNameChar(name[k])
    requires version != [] && NoSpace(version) && version[0] != '='
    requires forall k :: 0 <= k < |version| - 1 ==> !(version[k] == '=' && version[k + 1] == '=')
    requires '#' !in name && '#' !in version
    ensures Classify(name + "==" + version) == Matched(Requirement(name, version), false)
  {
    var line := name + "==" + version;
    PlainRequirementLine(name, version, line);
    ClassifyMatched(line, Requirement(name, version));
  }

  /** The facts about `name==version` its classification rests on. */
  lemma PlainRequirementLine(name: string, version: string, line: string)
    requires name != [] && forall k :: 0 <= k < |name| ==> IsNameChar(name[k])
    requires version != [] && NoSpace(version) && version[0] != '='
    requires forall k :: 0 <= k < |version| - 1 ==> !(version[k] == '=' && version[k + 1] == '=')
    requires '#' !in name && '#' !in version
    requires line == name + "==" + version
    ensures MatchRequirement(NoComment(line)) == Some(Requirement(name, version))
    ensures !Ignored(line)
  {
    MatchRoundTrip(name, version);
    assert line[0] == name[0] && line[|line| - 1] == version[|version| - 1];
    assert '#' !in line;
    NoCommentOfPlainLine(line);
    NoHashNotIgnored(line);
  }

  /** A line whose comment-free text matches, without `norot`, is a
      requirement line. */
  lemma ClassifyMatched(line: string, req: Requirement)
    requires MatchRequirement(NoComment(line)) == Some(req) && !Ignored(line)
    ensures Classify(line) == Matched(req, false)
  {
  }

  /** A file made of that single line gives the one entry
      `(name, version, False)`. */
  lemma SingleRequirementFile(name: string, version: string, files: map<string, seq<string>>,
                              named: bool, fuel: nat)
    requires name != [] && forall k :: 0 <= k < |name| ==> IsNameChar(name[k])
    requires version != [] && NoSpace(version) && version[0] != '='
    requires forall k :: 0 <= k < |version| - 1 ==> !(version[k] == '=' && version[k + 1] == '=')
    requires '#' !in name && '#' !in version
    ensures FileEntries([name + "==" + version], named, files, false, fuel) ==
      Some([Entry(Some(name), version, false)])
  {
    ClassifyRequirementLine(name, version);
    SingleMatchedLine(name + "==" + version, Requirement(name, version), false, files, named, fuel);
  }

  /** A file of one requirement line gives that line's one entry. */
  lemma SingleMatchedLine(line: string, req: Requirement, ignore: bool,
                          files: map<string, seq<string>>, named: bool, fuel: nat)
    requires Classify(line) == Matched(req, ignore)
    ensures FileEntries([line], named, files, false, fuel) == Some([Entry(Some(req.package), req.version, ignore)])
  {
    MapOne(Classify, line);
    OneRequirementLine(req, ignore, named, ClassifyFiles(files), fuel);
  }

  /** `f` over a single element. */
  lemma MapOne<A, B>(f: A -> B, x: A)
    ensures Map(f, [x]) == [f(x)]
  {
    MapAt(f, [x], 0);
  }

  /** A run of one requirement line gives that line's one entry. */
  lemma OneRequirementLine(req: Requirement, ignore: bool, named: bool,
                           sources: map<string, seq<Line>>, fuel: nat)
    ensures LinesEntries([Matched(req, ignore)], named, sources, false, fuel) ==
      Some([Entry(Some(req.package), req.version, ignore)])
  {
    var ls := [Matched(req, ignore)];
    assert ls[..0] == [];
    var e := Entry(Some(req.package), req.version, ignore);
    assert LinesEntries(ls, named, sources, false, fuel) == Then(Some([]), Some([e]));
    assert [] + [e] == [e];
  }

  /** The parser's unit test: the single line `requests==1.2.3` gives the
      entry `('requests', '1.2.3', False)`. */
  lemma ExactRequirement(name: string, version: string, files: map<string, seq<string>>, fuel: nat)
    requires name == "requests" && version == "1.2.3"
    ensures FileEntries([name + "==" + version], false, files, false, fuel) ==
      Some([Entry(Some(name), version, false)])
  {
    assert forall k :: 0 <= k < |name| ==> IsNameChar(name[k]);
    assert NoSpace(version);
    SingleRequirementFile(name, version, files, false, fuel);
  }

  // ---------------------------------------------------------------------
  // The loop

  /** An include line of a named file whose target exists contributes
      itself (in verbatim mode) followed by the entries of the target, or
      nothing at all once the target's parse has failed. */
  lemma IncludeEntries(target: string, raw: string, ignore: bool, files: map<string, seq<string>>,
                       verbatim: bool, fuel: nat, included: Option<seq<Entry>>)
    requires target in files && fuel > 0
    requires included == FileEntries(files[target], true, files, verbatim, fuel - 1)
    ensures LineEntries(Include(target, raw, ignore), true, ClassifyFiles(files), verbatim, fuel) ==
      if included.None? then None
      else Some((if verbatim then [Entry(None, raw, ignore)] else []) + included.value)
  {
    assert ClassifyFiles(files)[target] == ClassifyAll(files[target]);
  }

  /** `parse_req_file`: one pass over the lines, appending to `req_list`
      what each line contributes. */
  method ParseReqFile(lines: seq<string>, named: bool, files: map<string, seq<string>>,
                      verbatim: bool, fuel: nat)
    returns (r: Option<seq<Entry>>)
    ensures r == FileEntries(lines, named, files, verbatim, fuel)
    decreases fuel, 1
  {
    ghost var ls := ClassifyAll(lines);
    ghost var sources := ClassifyFiles(files);
    var reqList: seq<Entry> := [];
    var i := 0;
    while i < |lines|
      invariant 0 <= i <= |lines|
      invariant LinesEntries(ls[..i], named, sources, verbatim, fuel) == Some(reqList)
    {
      var more := ParseLine(Classify(lines[i]), named, files, verbatim, fuel);
      MapAt(Classify, lines, i);
      LinesEntriesStep(ls, i, named, sources, verbatim, fuel);
      if more.None? {
        FailureIsFinal(ls, i + 1, named, sources, verbatim, fuel);
        return None;
      }
      reqList := reqList + more.value;
      i := i + 1;
    }
    WholePrefix(ls);
    return Some(reqList);
  }

  /** The body of the loop for one line, once `Classify` has picked its
      branch: a requirement match, an include line (whose file is parsed in
      turn, after the include line itself in verbatim mode), or any other
      line. */
  method ParseLine(l: Line, named: bool, files: map<string, seq<string>>,
                   verbatim: bool, fuel: nat)
    returns (r: Option<seq<Entry>>)
    ensures r == LineEntries(l, named, ClassifyFiles(files), verbatim, fuel)
    decreases fuel, 0
  {
    match l
    case Matched(reqMatch, reqIgnore) =>
      return Some([Entry(Some(reqMatch.package), reqMatch.version, reqIgnore)]);
    case Include(fileName, requirement, reqIgnore) =>
      if !named {
        return Some([]);
      }
      var head := if verbatim then [Entry(None, requirement, reqIgnore)] else [];
      if fileName !in files {
        return Some(head);
      }
      if fuel == 0 {
        return None;
      }
      var included := ParseReqFile(files[fileName], true, files, verbatim, fuel - 1);
      IncludeEntries(fileName, requirement, reqIgnore, files, verbatim, fuel, included);
      if included.None? {
        return None;
      }
      return Some(head + included.value);
    case Other(requirement, reqIgnore) =>
      return Some(if verbatim then [Entry(None, requirement, reqIgnore)] else []);
  }
}
