# piprot in Dafny

A model of piprot, the tool that reports how many days a project's pinned
Python requirements lag behind their newest releases on PyPI. The model
covers the parts of the program that are plain string and integer logic:

- `PiprotVersion` and `parse_version`: normalising a version string,
  splitting it into integer parts, the three-way comparison that pads both
  part lists with zeros in place, and the pre-release test (`version.dfy`,
  module `Versioning`, with the Python string operations it needs in
  `text.dfy`, module `Text`).
- The offline half of `get_version_and_release_date`: a pinned lookup in
  the `releases` object, or the choice of the latest key by `max` over the
  non-pre-release keys, falling back to all keys (`resolver.dfy`, module
  `Resolver`).
- `parse_req_file`: comment stripping, the `name[extras]==version` regular
  expression, the `  # norot` flag, `-r` includes and verbatim mode
  (`reqfile.dfy`, module `ReqFile`).
- `main`: gathering the requirements, the two PyPI replies per requirement,
  the running total and maximum of day deltas, and the exit status with or
  without `delay` (`report.dfy`, module `Report`).
- The first version of the tool, `piprot.py` at the top of the repository:
  `load_requirements` and the total in its `__main__` block (`legacy.dfy`,
  module `Legacy`).
- `build_github_url`, with the GitHub API behind `get_default_branch`
  taken as an oracle (`github.dfy`, module `Github`).

The network, the file system and the clock are inputs: a PyPI reply is a
value (status code, decoded `releases` and `info.stable_version`), included
files are a map from the file name an include line yields to their lines,
release dates are integer seconds, and fetching is a deterministic function
from URL to reply. The file name an include line yields is the one
`parse_req_file` computes: every `-r` of the comment-free line deleted, then
the rest stripped.

Behaviour of the code that the model keeps:

- A version's parts are the integers spelled by the digits of each piece,
  0 for a piece without digits; parts are compared as integers, piece by
  piece.
- A version with more than five pieces has an empty part list.
- The pre-release test is a case-sensitive substring search on the
  normalised string.
- A truthy `info.stable_version` does not become the answer: the code then
  returns `release_date`, which was never assigned, so the lookup raises.
- A 404 reply raises too: the redirect check reads the local `url`, which
  is only assigned when no reply was passed in, and `main` always passes one.

## Model

| member | source | states |
|---|---|---|
| Text.TrimStart | piprot/piprot.py:100 | The left half of `strip()`: the result is a suffix of the input, every character dropped is one the predicate drops, and the result does not start with one. |
| Text.TrimEnd | piprot/piprot.py:100 | The right half of `strip()`: the result is a prefix of the input, every character dropped is one the predicate drops, and the result does not end with one. |
| Text.StripNoSpace | piprot/piprot.py:76 | `strip()` leaves text without whitespace unchanged. |
| Text.Find | piprot/piprot.py:77 | The index of the first occurrence of the pattern, with none before it, or `None` exactly when the pattern does not occur. |
| Text.Before | piprot/piprot.py:100 | The longest prefix without the character; when it is shorter than the text, the character follows it. |
| Text.SplitFirstPiece | piprot/piprot.py:100 | `split("#")[0]` is the text before the first `#`. |
| Text.JoinSplit | piprot/piprot.py:77 | Joining the pieces of `split(sep)` with `sep` gives back the text: splitting loses nothing. |
| Text.SplitJoin | piprot/piprot.py:77 | Splitting a join of pieces that do not contain the one-character separator gives back the pieces. |
| Text.RemoveAll | piprot/piprot.py:123 | `replace(pat, "")` leaves text that does not contain `pat` unchanged. |
| Text.RemoveAllStep | piprot/piprot.py:123 | `replace(pat, "")` deletes an occurrence wherever it is, not only at the start: when no occurrence starts inside `x`, `x + pat + y` becomes `x` followed by `y` with every occurrence deleted. |
| Text.FirstCharAbsent | piprot/piprot.py:123 | When the first character of `pat` is not in `x`, no occurrence of `pat` starts inside `x`, even one that runs into what follows. |
| Text.ReplaceChar | piprot/piprot.py:76 | `replace("-", ".")`: same length, each `-` becomes `.`, every other character is kept. |
| Text.DigitsOf | piprot/piprot.py:30 | `re.sub(r"\D", "", p)`: only digits, no longer than the piece, a piece of digits is kept whole, and the result is empty exactly when the piece has no digit. |
| Text.DigitsOfAppend | piprot/piprot.py:30 | Deleting non-digits works piece by piece: the digits of `a + b` are those of `a` followed by those of `b`, so a mixed piece keeps its digits in order. |
| Text.ReadShowNat | piprot/piprot.py:30 | `int()` of a number's decimal digits is the number. |
| Versioning.Normalize | piprot/piprot.py:76 | The normalised string is the stripped raw string with each `-` turned into `.` and every other character kept in place: the same length as the stripped text, no `-`, no surrounding whitespace. |
| Versioning.PartValue | piprot/piprot.py:30 | A part is never negative, an all-digit piece is its decimal value, and a piece without digits is 0. |
| Versioning.PartsOf | piprot/piprot.py:30 | One part per piece, in order, each the value of its piece. |
| Versioning.ParseVersion | piprot/piprot.py:75-82 | Keeps the normalised string; 1 to 5 pieces give their parts, more give an empty part list. |
| Versioning.Pad | piprot/piprot.py:43-48 | Padding keeps the old parts as a prefix, appends zeros, and reaches the other list's length. |
| Versioning.FirstDifference | piprot/piprot.py:50-52 | The scan is 0 exactly for equal lists, otherwise `us - them` at the first position where they differ. |
| Versioning.Compare | piprot/piprot.py:36-61 | Identical strings compare 0; two different strings compare 0 only when neither is a pre-release. |
| Versioning.Less | piprot/piprot.py:63-64 | `<` never holds between identical strings, and a pre-release is below a different string with the same parts. |
| Versioning.ScanSign | piprot/piprot.py:43-52 | After padding, the scan is negative, positive or zero exactly when the parts are less, greater or equal up to trailing zeros. |
| Versioning.CompareMeaning | piprot/piprot.py:36-61 | When `__cmp__` is negative, zero or positive, in both directions: identical strings are equal, differing parts decide, and a full tie goes to pre-release status, self first. |
| Versioning.PartsTrichotomy | piprot/piprot.py:50-52 | Exactly one of less, equal, greater holds between two padded part lists. |
| Versioning.PartsLessTransitive | piprot/piprot.py:50-52 | The padded order of part lists is transitive. |
| Versioning.PaddingKeepsCompare | piprot/piprot.py:43-48 | Padding a version's parts in place changes no later comparison with it, on either side. |
| Versioning.CompareFlips | piprot/piprot.py:36-61 | Swapping the arguments flips the sign, except for two distinct pre-releases with equal parts. |
| Versioning.LessTransitive | piprot/piprot.py:63-64 | `<` is transitive between versions whose outer strings differ. |
| Versioning.LessBoundsParts | piprot/piprot.py:50-64 | `a < b` puts `a`'s parts at or below `b`'s, a no puts them at or above, and strictly below when `a` is not a pre-release. |
| Versioning.SameStringSameParts | piprot/piprot.py:75-82 | Two raw strings with the same normalised form parse to the same version. |
| Versioning.MarkersReduce | piprot/piprot.py:69-72 | The pre-release pattern matches exactly when one of `a`, `b`, `c`, `pre`, `dev`, `svn`, `git` occurs. |
| Versioning.NoLetterNoPrerelease | piprot/piprot.py:69-72 | A string without lower-case letters is never a pre-release. |
| Versioning.ParseRender | piprot/piprot.py:75-82 | Parsing the dotted rendering of 1 to 5 numbers gives back those numbers, and it is not a pre-release. |
| Versioning.ParsesFromPieces | piprot/piprot.py:75-82 | A clean string that joins dot-free pieces splits back into them and parses to their values. |
| Versioning.RenderedOrder | piprot/piprot.py:36-64 | On rendered numeric versions, `<` is exactly the padded order and `__cmp__ == 0` exactly equality up to trailing zeros. |
| Versioning.LastPartDecides | piprot/test/test_versioning.py:8-18 | With equal leading parts, the last part compares numerically: `3.3.0.2 < 3.3.0.20 < 3.3.0.22`. |
| Versioning.ExtensionIsGreater | piprot/test/test_versioning.py:20-27 | Adding a non-zero part makes a version greater: `3.2 < 3.2.1`. |
| Versioning.TrailingZerosEqual | piprot/piprot.py:54-61 | `1.0` and `1.0.0` are different strings that compare equal. |
| Versioning.DistinctRenderings | piprot/piprot.py:37-38 | Different part lists render to different strings, so the identical-string shortcut does not apply to them. |
| Versioning.ParseWithLetters | piprot/piprot.py:30 | `"1.0rc1"` parses to parts `[1, 1]`. |
| Versioning.ReleaseCandidateAboveFinal | piprot/piprot.py:50-58 | `1.0` is less than `1.0rc1` and not the other way round. |
| Versioning.PartsDecide | piprot/piprot.py:50-52 | A differing part decides both comparisons, whatever the pre-release status. |
| Versioning.PrereleasesEachLess | piprot/piprot.py:54-55 | Two distinct pre-releases with equal parts are each less than the other. |
| Versioning.NotAntisymmetric | piprot/piprot.py:54-55 | `1.0a < 1.0b` and `1.0b < 1.0a` both hold. |
| Versioning.PiprotVersion.constructor | piprot/piprot.py:29-31 | The object holds the given string and one integer part per piece. |
| Versioning.PiprotVersion.Cmp | piprot/piprot.py:36-61 | Returns the comparison of both objects as they were, and leaves both part lists padded in place (untouched for identical strings). |
| Versioning.PiprotVersion.PadParts | piprot/piprot.py:43-48 | The two padding loops extend each object's parts with zeros to the other's original length, in place, and change nothing else. |
| Versioning.PiprotVersion.Lt | piprot/piprot.py:63-64 | `__lt__` is `__cmp__ < 0`, with the same padding effect. |
| Versioning.PiprotVersion.Eq | piprot/piprot.py:66-67 | `__eq__` is `__cmp__ == 0`, with the same padding effect. |
| Resolver.PypiUrl | piprot/piprot.py:85-90 | The URL is the base, `/`, the requirement and `/json`. |
| Resolver.PypiUrlIgnoresVersion | piprot/piprot.py:85-90 | The version argument does not change the URL, and the requirement sits right after the base. |
| Resolver.FindRelease | piprot/piprot.py:183-184 | The first release with the key, or `None` exactly when no release has it. |
| Resolver.StableKeys | piprot/piprot.py:191-195 | A key is kept exactly when it is a release key and not a pre-release, and the list is no longer than the keys. |
| Resolver.StableKeysAppend | piprot/piprot.py:191-195 | The filter keeps the order of the keys: filtering `a + b` gives the kept keys of `a` followed by those of `b`. |
| Resolver.Candidates | piprot/piprot.py:191-201 | Release keys only, empty exactly when there are no releases, no pre-release while a stable key exists, and every stable key (every key, when none is stable) among them. |
| Resolver.ScanMax | piprot/piprot.py:204 | The left-to-right `max` scan returns an index of the list at or after the starting best. |
| Resolver.Latest | piprot/piprot.py:203-204 | `max` gives `None` exactly for no keys, otherwise one of the keys. |
| Resolver.ScanMaxIsMaximal | piprot/piprot.py:204 | For any `less` bounded by a relation that chains, the left-to-right scan ends at or above every element. |
| Resolver.ScanMaxKeepsFirst | piprot/piprot.py:204 | When `less` only says yes on a strict step, the scan never moves past an element it is not strictly above. |
| Resolver.LatestIsMaximal | piprot/piprot.py:204 | The chosen key's parts are at or above those of every key. |
| Resolver.LatestIsFirstMaximal | piprot/piprot.py:204 | Without pre-releases, the chosen key is the first with maximal parts. |
| Resolver.LatestDominates | piprot/piprot.py:204 | The chosen key dominates every key it was chosen from. |
| Resolver.FirstUpload | piprot/piprot.py:183-186 | Found exactly when the first release with the key has an upload, and then it is that key with the first upload time; an empty file list gives `(None, None)`; it never raises. |
| Resolver.Resolve | piprot/piprot.py:149-215 | An answer with a date needs status 200 and a decoded body. |
| Resolver.NewestUpload | piprot/piprot.py:190-207 | Without releases there is no answer; otherwise found exactly when the first release whose key is the `max` of the candidates has an upload, and then the version is that key, a release key, not a pre-release while a stable key exists, dominating every candidate, with its first upload time. |
| Resolver.PinnedLookup | piprot/piprot.py:182-186 | A pinned lookup finds exactly that key's first upload, gives `(None, None)` for an absent key or empty file list, and never raises. |
| Resolver.CrashCases | piprot/piprot.py:149-150 | The lookup raises exactly on a 404 or a truthy `stable_version` without a pin. |
| Resolver.LatestLookup | piprot/piprot.py:188-207 | On a good reply without `stable_version`, the latest lookup is found exactly when the `max` candidate's first release has an upload, reports that key, and has all the properties of `NewestUpload`. |
| Resolver.LatestThenPinned | piprot/piprot.py:182-205 | Asking for the version the latest lookup reported gives the same version and date. |
| ReqFile.NameRunMaximal | piprot/piprot.py:104 | The package run takes every name character and stops at the first other one. |
| ReqFile.NonSpaceRunMaximal | piprot/piprot.py:104 | The `\S+` run takes every non-space character and stops at whitespace or the end. |
| ReqFile.LastExtrasLargest | piprot/piprot.py:104 | The extras search finds the largest `]==` position that splits the line. |
| ReqFile.LastPlainLargest | piprot/piprot.py:104 | Without extras, the search finds the largest `==` position that splits the line. |
| ReqFile.FindSplitGreatest | piprot/piprot.py:103-106 | Backtracking settles on the greatest split in package-then-extras order. |
| ReqFile.GreatestSplitUnique | piprot/piprot.py:103-106 | The split the regular expression takes is the greatest one. |
| ReqFile.Groups | piprot/piprot.py:110-111 | The package group is a non-empty name run and the version group is non-empty without whitespace. |
| ReqFile.MatchRequirement | piprot/piprot.py:103-106 | A match has a non-empty package of name characters and a non-empty version without whitespace. |
| ReqFile.MatchIffSplit | piprot/piprot.py:103-106 | The expression matches exactly when some split exists after leading whitespace. |
| ReqFile.MatchRoundTrip | piprot/piprot.py:103-111 | `name==version` matches with exactly those groups. |
| ReqFile.MatchRoundTripExtras | piprot/piprot.py:104 | `name[extras]==version` matches with the same groups; the extras are dropped. |
| ReqFile.GreedyPackage | piprot/piprot.py:104 | In `a==b==c` the package is `a==b`: the last `==` splits. |
| ReqFile.ExtrasDropped | piprot/piprot.py:104 | `pkg[ssl]==1.0` gives package `pkg` and version `1.0`. |
| ReqFile.IncludeTarget | piprot/piprot.py:122-123 | The intended file name (only the leading `-r` dropped) is no longer than the text after `-r`. |
| ReqFile.IncludeTargetAsWritten | piprot/piprot.py:123 | The file name as the code computes it: every `-r` deleted, then stripped; for a line without another `-r` that is the stripped line. |
| ReqFile.IncludeTargetKeepsName | piprot/piprot.py:122-123 | The intended reading yields exactly the stripped text after `-r`, whatever it holds. |
| ReqFile.IncludeTargetSpacedName | piprot/piprot.py:122-123 | In the intended reading `-r name` yields `name`. |
| ReqFile.InnerPatternRemoved | piprot/piprot.py:123 | Deleting every occurrence of a two-character marker also deletes the one inside the name. |
| ReqFile.IncludeTargetMangled | piprot/piprot.py:123 | For `-r a-rb`, the leading-only reading gives `a-rb` and the source gives `ab`. |
| ReqFile.DevRequirementsMangled | piprot/piprot.py:123 | `-r dev-requirements.txt` names a different file in the source than the line says. |
| ReqFile.IncludeTargetsAgree | piprot/piprot.py:123 | When the name holds no `-r`, both readings give the name. |
| ReqFile.ClassifyShape | piprot/piprot.py:100-113 | Every line carries the `norot` flag of its stripped text; non-matches keep the raw line; matches have a package and a whitespace-free version. |
| ReqFile.Classify | piprot/piprot.py:100-123 | Every line carries the `norot` flag of its text; a non-match keeps the raw line; an include is a line whose comment-free text does not match and starts with `-r`. |
| ReqFile.LinesEntriesAppend | piprot/piprot.py:99-133 | The entries of two runs of lines are the first run's followed by the second's. |
| ReqFile.LineEntries | piprot/piprot.py:109-132 | A line of an unnamed file always gives entries; a line fails only when it is an include of a named file whose target exists. |
| ReqFile.LinesEntries | piprot/piprot.py:99-133 | Lines of an unnamed file never fail: their includes are not followed. |
| ReqFile.FileEntries | piprot/piprot.py:93-133 | A file without a name always parses. |
| ReqFile.FileEntriesAppend | piprot/piprot.py:97-133 | The same for raw lines of a file. |
| ReqFile.FailureIsFinal | piprot/piprot.py:128 | Once an include cycle exhausts the recursion limit, the whole parse fails. |
| ReqFile.NamedOutsideVerbatim | piprot/piprot.py:109-133 | Outside verbatim mode every entry, included ones too, names a package and has a whitespace-free version. |
| ReqFile.FileNamedOutsideVerbatim | piprot/piprot.py:93-133 | The same for a whole file read from its raw lines. |
| ReqFile.VerbatimOnePerLine | piprot/piprot.py:109-112 | In verbatim mode without includes, each line gives one entry with its flag, named exactly when it matched. |
| ReqFile.RequirementsOnly | piprot/piprot.py:131-132 | Outside verbatim mode, lines without includes give exactly their matches, in order. |
| ReqFile.NoHashNotIgnored | piprot/piprot.py:107 | A line without `#` is never flagged `norot`. |
| ReqFile.NoCommentOfPlainLine | piprot/piprot.py:100 | A stripped line without `#` keeps its text. |
| ReqFile.ClassifyRequirementLine | piprot/piprot.py:100-111 | A `name==version` line is a match with those groups and no `norot` flag. |
| ReqFile.PlainRequirementLine | piprot/piprot.py:100-107 | The comment-free text of a `name==version` line matches with those groups, unflagged. |
| ReqFile.ClassifyMatched | piprot/piprot.py:109-111 | A line whose comment-free text matches is classified as that match. |
| ReqFile.SingleRequirementFile | piprot/piprot.py:97-133 | A file of one `name==version` line gives one entry `(name, version, False)`. |
| ReqFile.SingleMatchedLine | piprot/piprot.py:109-112 | A file of one matching line gives that one entry. |
| ReqFile.OneRequirementLine | piprot/piprot.py:110-111 | One matching classified line gives one named entry. |
| ReqFile.ExactRequirement | piprot/test/test_parser.py:13-17 | `requests==1.2.3` gives `('requests', '1.2.3', False)`. |
| ReqFile.IncludeEntries | piprot/piprot.py:113-130 | An include line gives its verbatim copy (in verbatim mode) followed by the included file's entries, or fails with it. |
| ReqFile.ParseReqFile | piprot/piprot.py:93-133 | The line loop computes the entries of the file, as `FileEntries` defines them, with include names read as the code reads them. |
| ReqFile.ParseLine | piprot/piprot.py:100-132 | One pass of the loop body computes that line's entries, recursing into includes. |
| Report.LocalIsConcatenation | piprot/piprot.py:253-254 | Several local files give the entries of their lines one file after the other. |
| Report.RemoteEntriesNamed | piprot/piprot.py:245-251 | Downloaded lines, taken as text, always parse and give only named entries. |
| Report.NoIncludesFollowed | piprot/piprot.py:114-120 | A file without a name never fails, whatever its include lines. |
| Report.Gather | piprot/piprot.py:243-255 | The gathering loop computes the entries of the source, following includes by the name the code computes. |
| Report.LocalFailureIsFinal | piprot/piprot.py:253-254 | A failing file makes the whole gathering fail. |
| Report.QueriesShape | piprot/piprot.py:261-273 | Each query names a package and holds the same reply twice; without verbatim every result is a query; no more results than entries. |
| Report.Queries | piprot/piprot.py:259-273 | There are no more results than entries. |
| Report.Collect | piprot/piprot.py:259-273 | The results loop computes the queries of the entries. |
| Report.Days | piprot/piprot.py:298 | `.days` is the floor of the difference over 86400 seconds. |
| Report.Combine | piprot/piprot.py:290-299 | A requirement raises when either lookup raises, counts days exactly when both dates exist, and then counts the floor of their difference in days. |
| Report.Lookups | piprot/piprot.py:280-299 | One pass of the result loop gives that result's outcome. |
| Report.StepOutcome | piprot/piprot.py:280-299 | A non-ignored query raises when either reply is a 404, and counts days only for a non-ignored query with two 200 replies. |
| Report.PinnedAtLatest | piprot/piprot.py:290-299 | A requirement pinned at the latest version is 0 days behind. |
| Report.TallyMeaning | piprot/piprot.py:257-300 | The tally fails exactly when some lookup raised; otherwise the total is the sum of the deltas and the maximum is 0 or the largest delta. |
| Report.TallySpec | piprot/piprot.py:275-300 | A tally that does not fail never has a negative maximum. |
| Report.Tally | piprot/piprot.py:275-300 | The accumulation loop computes the tally. |
| Report.Accumulate | piprot/piprot.py:297-300 | One step adds the delta to the total and raises the maximum to it. |
| Report.TallyFailureIsFinal | piprot/piprot.py:275-300 | Once a lookup raises, the tally fails. |
| Report.ExitStatus | piprot/piprot.py:336-358 | The status is 0 or 1. |
| Report.Judge | piprot/piprot.py:336-358 | "Out of date" only without `delay` and for a positive total; "past the delay" only with `delay` and for a delta above it. |
| Report.ExitMeaning | piprot/piprot.py:336-358 | Exit 1 exactly when a lookup raised, or without `delay` the total is positive, or with `delay` some delta exceeds it. |
| Report.VerdictKinds | piprot/piprot.py:336-358 | Without `delay`, out of date exactly for a positive total; with `delay`, only the delay verdicts. |
| Report.Run | piprot/piprot.py:218-358 | The command computes the exit status of the source, 0 or 1. |
| Report.RunStatus | piprot/piprot.py:218-358 | The status is 0 or 1, and 1 when gathering the requirements fails. |
| Report.IgnoredNeverFail | piprot/piprot.py:280-285 | When every entry is ignored, the exit status is 0 for no or a non-negative `delay`. |
| Report.AllSkipped | piprot/piprot.py:280-285 | Ignored entries are skipped without a lookup. |
| Report.AllSkippedDelays | piprot/piprot.py:280-285 | Skipped results add no delta and raise nothing. |
| Legacy.Token | piprot.py:20 | The token holds no space and no newline, and does not start with whitespace. |
| Legacy.EntryMeaning | piprot.py:20-26 | A line gives `(name, version)` exactly when its token is accepted and reads `name==version` with no other `==`. |
| Legacy.Entry | piprot.py:20-26 | An entry comes only from an accepted token that reads `name==version`. |
| Legacy.PinnedPieces | piprot.py:23 | Two pieces from `split('==')` join back into the token around one `==`. |
| Legacy.SplitPinned | piprot.py:23 | `name==version` splits into `[name, version]` when neither holds another `==`. |
| Legacy.UnpinnedDropped | piprot.py:22-26 | A token without `=` gives no entry. |
| Legacy.PinnedLineRead | piprot.py:19-24 | A plain `name==version` line gives that entry. |
| Legacy.GitInNameDropped | piprot.py:21 | `digitalocean==1.0` gives no entry, for it contains `git`. |
| Legacy.StoreMeaning | piprot.py:24 | A name is stored exactly when some entry names it, with the value of its last entry. |
| Legacy.Store | piprot.py:24 | The dictionary has no more names than there are entries. |
| Legacy.LoadMeaning | piprot.py:16-30 | The dictionary holds exactly the names of accepted lines, each with the version of its last line. |
| Legacy.Load | piprot.py:16-30 | The dictionary has no more names than the file has lines. |
| Legacy.LoadRequirements | piprot.py:11-30 | The line loop builds that dictionary. |
| Legacy.PinOf | piprot.py:35-38 | An empty pin is falsy, so the date lookup asks for the newest release. |
| Legacy.Lag | piprot.py:84-88 | An empty pin lags by 0 days; when both dates exist the lag is the floor of their difference in days. |
| Legacy.LagSum | piprot.py:82-89 | When no requirement lags, the total is 0. |
| Legacy.LagSumRemove | piprot.py:83 | Any name can be summed first: the order of `items()` does not change the total. |
| Legacy.TotalTimeDelta | piprot.py:82-89 | The loop's total is the sum of every requirement's lag. |
| Legacy.PositiveTotalHasLag | piprot.py:87-96 | A positive total needs some requirement that lags. |
| Legacy.LagMakesTotalPositive | piprot.py:87-96 | When no requirement is ahead, one that lags makes the total positive. |
| Legacy.LagSumNonNegative | piprot.py:82-89 | When no requirement is ahead, the total is not negative. |
| Legacy.EmptyPinNeverLags | piprot.py:84-88 | A requirement with an empty pin lags by 0 days. |
| Legacy.Staleness | piprot.py:80-99 | The report is "out of date" exactly for a positive total, with that total and a lagging requirement. |
| Github.PrefixLength | piprot/providers/github.py:17 | A prefix match starts with `http` and fits in the text; the `.` stands for any character but a newline. |
| Github.NormalizeRepo | piprot/providers/github.py:17 | The cleaned repository is no longer than the input and neither starts nor ends with `/`. |
| Github.PrefixRemovedOnce | piprot/providers/github.py:17 | Either scheme, with any character but a newline for the dot, is removed once; what follows is only stripped of `/`. |
| Github.NewlineDotKept | piprot/providers/github.py:17 | A newline in place of the dot does not match, so the address is only stripped of `/`. |
| Github.PlainRepoStripped | piprot/providers/github.py:17 | Text without the prefix is only stripped of `/`. |
| Github.CleanRepoKept | piprot/providers/github.py:17 | An `owner/name` repository is kept as it is. |
| Github.DefaultBranch | piprot/providers/github.py:34-42 | The API's default branch on status 200, `master` otherwise. |
| Github.Assemble | piprot/providers/github.py:26-29 | The URL starts with the repository folder, ends with `?token=` and the token when there is one, and is exactly folder and file otherwise. |
| Github.BuildGithubUrl | piprot/providers/github.py:12-31 | The URL starts with the raw host and the cleaned repository; it ends with `?token=` and the token for a truthy token, otherwise with the given path or `requirements.txt`. |
| Github.GivenBranchSkipsApi | piprot/providers/github.py:23-24 | With a truthy branch, the API's answer does not matter. |
| Github.DefaultBranchUrl | piprot/providers/github.py:23-26 | With a falsy branch, a path and no token, the URL is exactly the raw host, the cleaned repository, `/`, the branch `get_default_branch` gives (the API's on status 200, `master` otherwise), `/` and the path. |
| Github.GivenBranchUrl | piprot/providers/github.py:23-26 | With a branch and a path given and no token, the URL is exactly the raw host, the cleaned repository, `/`, the branch, `/` and the path. |
| Github.FalsyPathIsDefault | piprot/providers/github.py:20-21 | A missing or empty path means `requirements.txt`. |
| Github.TokenIsAppended | piprot/providers/github.py:28-29 | A truthy token appends `?token=` and the token to the token-free URL; a falsy one adds nothing. |
| Github.DefaultIsMaster | piprot/test/test_github.py:9-12 | Leaving out the branch gives the same URL as `master` whenever the API does not name another branch. |

## Left out

- HTTP: `thttp.py`, the fetch in `get_version_and_release_date` when no reply is passed in, its 404 to HEAD to 301 redirect, JSON decoding, and `get_requirements_file_from_url` are not modelled; replies and downloaded lines are inputs. The model assumes a download yields text lines: how `six.StringIO` treats the bytes of a reply is not modelled.
- The body of `get_default_branch`: the API is an oracle from URL to reply, and a 200 reply without `default_branch` (a `KeyError`) is not modelled.
- The conda provider (`piprot/providers/conda.py`) is not part of this model.
- The legacy `get_release_date` and its network access: release dates are an oracle from name and optional version to seconds.
- Timestamps: `strptime`, `mktime` and `fromtimestamp` depend on the local time zone; dates are integer seconds and `.days` is floor division by 86400.
- A reply without an `info` object (a `KeyError`) is not modelled; `stable_version` is an optional string.
- Duplicate keys in the JSON text of `releases`, where Python keeps the last one: the model looks up the first release with a key.
- File opening and `os.path` joining for `-r` includes: included files are a map from the name the code computes for an include line to their lines.
- Python's recursion limit: a `fuel` count of nested includes; running out of it is a failed parse.
- All printing: verbose and outdated messages, verbatim output, `--latest` lines and the summary text; `verbose`, `outdated` and `latest` only change what is printed, so they are not parameters.
- The `lint` flag of `load_requirements` only prints a warning; `LoadRequirements` has no such parameter, so the dictionary cannot depend on it.
- Command-line parsing (`piprot()` and the legacy `__main__` argument handling) and `int(delay)`: `delay` is an optional integer.
- `__str__` of `PiprotVersion` only returns the stored string.
- Non-ASCII whitespace and Unicode digits: `strip()` and `\s` know the ASCII whitespace characters, and `\D` the ASCII digits.
- Legacy.Token: the contract states the shape of the token (no space or newline, no leading whitespace), not which characters of the line it keeps; PinnedLineRead states that for a pinned line.
- Resolver.Resolve: its own contract only ties a found date to a good reply; PinnedLookup, CrashCases, LatestLookup and LatestThenPinned state when it finds a date, which one, and when it raises.
- Github.PrefixLength: its own contract only bounds the match; PrefixRemovedOnce, NewlineDotKept, PlainRepoStripped and CleanRepoKept state what it removes.

## Findings

| source | as written | input that shows it | evidently intended | confidence | as-written member | corrected member |
|---|---|---|---|---|---|---|
| piprot/piprot.py:123 | `replace("-r", "")` deletes every `-r` of the include line, not just the leading one | `-r dev-requirements.txt` opens `devequirements.txt` | drop only the leading `-r`, then strip | not executed | ReqFile.DevRequirementsMangled | ReqFile.IncludeTargetKeepsName |
