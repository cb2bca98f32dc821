/**
  The handful of Python `str` operations the rest of the model is built on:
  `strip`, `split`, `join`, `replace`, `startswith`/`endswith`, the substring
  test `in`, and turning a run of ASCII digits into an integer. Strings are
  sequences of characters.
*/
module Text {
  import opened Wrappers

  /** Whitespace as `str.strip()` and the regular-expression class `\s` see it
      (the ASCII part of it). */
  predicate IsSpace(c: char) {
    c == ' ' || c == '\t' || c == '\n' || c == '\r' || c == '\U{B}' || c == '\U{C}'
    || c == '\U{1C}' || c == '\U{1D}' || c == '\U{1E}' || c == '\U{1F}'
  }

  predicate IsDigit(c: char) {
    '0' <= c <= '9'
  }

  predicate AllDigits(s: string) {
    forall i :: 0 <= i < |s| ==> IsDigit(s[i])
  }

  predicate NoSpace(s: string) {
    forall i :: 0 <= i < |s| ==> !IsSpace(s[i])
  }

  predicate StartsWith(s: string, prefix: string) {
    |prefix| <= |s| && s[..|prefix|] == prefix
  }

  predicate EndsWith(s: string, suffix: string) {
    |suffix| <= |s| && s[|s| - |suffix|..] == suffix
  }

  /** `pat` occurs in `s` starting at index `i`. */
  predicate OccursAt(s: string, pat: string, i: int) {
    0 <= i && i + |pat| <= |s| && s[i..i + |pat|] == pat
  }

  /** Python's `pat in s`. */
  predicate Contains(s: string, pat: string) {
    exists i :: 0 <= i <= |s| && OccursAt(s, pat, i)
  }

  /** `s.lstrip(chars)` where `drop` says which characters are in `chars`. */
  function TrimStart(s: string, drop: char -> bool): (r: string)
    ensures |r| <= |s| && r == s[|s| - |r|..]
    ensures r == [] || !drop(r[0])
    ensures forall i :: 0 <= i < |s| - |r| ==> drop(s[i])
  {
    if s != [] && drop(s[0]) then
      var r := TrimStart(s[1..], drop);
      assert forall i :: 1 <= i < |s| ==> s[i] == s[1..][i - 1];
      r
    else s
  }

  /** Nothing is trimmed from a string that starts with a kept character. */
  lemma TrimStartKeeps(s: string, drop: char -> bool)
    requires s == [] || !drop(s[0])
    ensures TrimStart(s, drop) == s
  {
  }

  /** `s.rstrip(chars)` where `drop` says which characters are in `chars`. */
  function TrimEnd(s: string, drop: char -> bool): (r: string)
    ensures |r| <= |s| && r == s[..|r|]
    ensures r == [] || !drop(r[|r| - 1])
    ensures forall i :: |r| <= i < |s| ==> drop(s[i])
  {
    if s != [] && drop(s[|s| - 1]) then TrimEnd(s[..|s| - 1], drop) else s
  }

  /** `s.strip(chars)`: the longest middle piece of `s` that neither begins
      nor ends with a dropped character. */
  function TrimBoth(s: string, drop: char -> bool): (r: string)
    ensures |r| <= |s|
    ensures r == [] || (!drop(r[0]) && !drop(r[|r| - 1]))
  {
    TrimEnd(TrimStart(s, drop), drop)
  }

  /** Python's `s.strip()` with no argument. */
  function Strip(s: string): (r: string)
    ensures |r| <= |s|
    ensures r == [] || (!IsSpace(r[0]) && !IsSpace(r[|r| - 1]))
  {
    TrimBoth(s, IsSpace)
  }

  lemma StripNoSpace(s: string)
    requires NoSpace(s)
    ensures Strip(s) == s
  {
    assert TrimStart(s, IsSpace) == s;
    assert TrimEnd(s, IsSpace) == s;
  }

  /** A string that neither begins nor ends with whitespace strips to itself. */
  lemma StripTrimmed(t: string)
    requires t == [] || (!IsSpace(t[0]) && !IsSpace(t[|t| - 1]))
    ensures Strip(t) == t
  {
    assert TrimStart(t, IsSpace) == t;
  }

  /** A leading whitespace character is stripped away. */
  lemma StripLeadingSpace(c: char, t: string)
    requires IsSpace(c)
    requires t == [] || (!IsSpace(t[0]) && !IsSpace(t[|t| - 1]))
    ensures Strip([c] + t) == t
  {
    assert ([c] + t)[1..] == t;
    assert TrimStart([c] + t, IsSpace) == TrimStart(t, IsSpace);
    StripTrimmed(t);
  }

  /** The first index at which `pat` occurs in `s`, as `s.find(pat)` finds it. */
  function Find(s: string, pat: string): (r: Option<nat>)
    requires pat != []
    ensures r.Some? ==> OccursAt(s, pat, r.value)
    ensures r.Some? ==> forall j :: 0 <= j < r.value ==> !OccursAt(s, pat, j)
    ensures r.None? ==> forall j :: !OccursAt(s, pat, j)
  {
    FindFrom(s, pat, 0)
  }

  /** The scan behind `Find`, started at index `i` with nothing found before it. */
  function FindFrom(s: string, pat: string, i: nat): (r: Option<nat>)
    requires pat != []
    requires forall j :: 0 <= j < i ==> !OccursAt(s, pat, j)
    ensures r.Some? ==> i <= r.value && OccursAt(s, pat, r.value)
    ensures r.Some? ==> forall j :: 0 <= j < r.value ==> !OccursAt(s, pat, j)
    ensures r.None? ==> forall j :: !OccursAt(s, pat, j)
    decreases |s| - i
  {
    if i + |pat| > |s| then None
    else if s[i..i + |pat|] == pat then Some(i)
    else FindFrom(s, pat, i + 1)
  }

  /** Python's `s.split(sep)` for a non-empty separator: the pieces between
      the non-overlapping occurrences of `sep`, found left to right. */
  function Split(s: string, sep: string): (pieces: seq<string>)
    requires sep != []
    ensures |pieces| >= 1
    decreases |s|
  {
    match Find(s, sep)
    case None => [s]
    case Some(k) => [s[..k]] + Split(s[k + |sep|..], sep)
  }

  /** The part of `s` before the first `c`, or all of `s` when it holds no `c`. */
  function Before(s: string, c: char): (r: string)
    ensures |r| <= |s| && r == s[..|r|] && c !in r
    ensures |r| < |s| ==> s[|r|] == c
    decreases |s|
  {
    if s == [] || s[0] == c then [] else [s[0]] + Before(s[1..], c)
  }

  /** Without a `c` the whole string comes before it. */
  lemma BeforeAbsent(s: string, c: char)
    requires c !in s
    ensures Before(s, c) == s
  {
    assert s[..|s|] == s;
  }

  /** A string without `c` cannot end with a suffix holding `c`. */
  lemma AbsentCharNoSuffix(s: string, suffix: string, k: nat)
    requires k < |suffix| && suffix[k] !in s
    ensures !EndsWith(s, suffix)
  {
  }

  /** `s.split(c)[0]` is the part before the first `c`. */
  lemma SplitFirstPiece(s: string, c: char)
    ensures Split(s, [c])[0] == Before(s, c)
  {
    var r := Before(s, c);
    if |r| < |s| {
      assert s[|r|..|r| + 1] == [c];
      assert OccursAt(s, [c], |r|);
    }
    match Find(s, [c])
    case None =>
    case Some(k) =>
      assert s[k..k + 1] == [c];
      if k < |r| {
        assert r[k] == s[k];
      }
  }

  /** Python's `sep.join(pieces)` for a non-empty list. */
  function Join(pieces: seq<string>, sep: string): (s: string)
    requires |pieces| >= 1
  {
    if |pieces| == 1 then pieces[0] else pieces[0] + sep + Join(pieces[1..], sep)
  }

  /** Splitting and joining back with the same separator gives the string back. */
  lemma {:induction false} JoinSplit(s: string, sep: string)
    requires sep != []
    ensures Join(Split(s, sep), sep) == s
    decreases |s|
  {
    match Find(s, sep)
    case None =>
    case Some(k) =>
      var rest := s[k + |sep|..];
      var tail := Split(rest, sep);
      var pieces := [s[..k]] + tail;
      assert Split(s, sep) == pieces;
      assert pieces[1..] == tail;
      assert Join(pieces, sep) == s[..k] + sep + Join(tail, sep);
      JoinSplit(rest, sep);
      assert s == s[..k] + s[k..k + |sep|] + rest;
  }

  /** Splitting on a single character that no piece contains recovers the
      pieces: the inverse direction of `JoinSplit`. */
  lemma {:induction false} SplitJoin(pieces: seq<string>, c: char)
    requires |pieces| >= 1
    requires forall i :: 0 <= i < |pieces| ==> c !in pieces[i]
    ensures Split(Join(pieces, [c]), [c]) == pieces
    decreases |pieces|
  {
    var s := Join(pieces, [c]);
    if |pieces| == 1 {
      forall j | 0 <= j < |s| ensures !OccursAt(s, [c], j) {
        assert s[j..j + |[c]|] == [s[j]];
      }
    } else {
      var p := pieces[0];
      var rest := Join(pieces[1..], [c]);
      assert s == p + [c] + rest;
      assert c !in p;
      assert OccursAt(s, [c], |p|) by { assert s[|p|..|p| + 1] == [c]; }
      forall j | 0 <= j < |p| ensures !OccursAt(s, [c], j) {
        assert s[j..j + 1] == [p[j]];
      }
      assert Find(s, [c]) == Some(|p|);
      assert s[..|p|] == p;
      assert s[|p| + 1..] == rest;
      assert Split(s, [c]) == [p] + Split(rest, [c]);
      SplitJoin(pieces[1..], c);
      assert pieces == [p] + pieces[1..];
    }
  }

  /** Python's `s.replace(pat, "")`: every non-overlapping occurrence of `pat`,
      found left to right, is deleted. */
  function RemoveAll(s: string, pat: string): (r: string)
    requires pat != []
    ensures !Contains(s, pat) ==> r == s
    decreases |s|
  {
    match Find(s, pat)
    case None => s
    case Some(k) => s[..k] + RemoveAll(s[k + |pat|..], pat)
  }

  /** A pattern cannot occur where its first character does not. */
  lemma NoFirstCharNoOccurrence(s: string, pat: string)
    requires pat != [] && pat[0] !in s
    ensures !Contains(s, pat)
  {
    forall i | 0 <= i <= |s| && i + |pat| <= |s| ensures !OccursAt(s, pat, i) {
      assert s[i..i + |pat|][0] == s[i];
    }
  }

  /** A character that does not begin the pattern cannot start an
      occurrence of it in front of text that has none. */
  lemma NoOccurrenceAfter(c: char, t: string, pat: string)
    requires pat != [] && c != pat[0] && !Contains(t, pat)
    ensures !Contains([c] + t, pat)
  {
    var s := [c] + t;
    forall i | 0 <= i <= |s| && i + |pat| <= |s| ensures !OccursAt(s, pat, i) {
      if i == 0 {
        assert s[0..|pat|][0] == c;
      } else {
        assert s[i..i + |pat|] == t[i - 1..i - 1 + |pat|];
        assert !OccursAt(t, pat, i - 1);
      }
    }
  }

  /** `replace` deletes the first occurrence and carries on after it: when
      no occurrence starts inside `x`, the one right after `x` goes. */
  lemma RemoveAllStep(x: string, pat: string, y: string)
    requires pat != []
    requires forall j :: 0 <= j < |x| ==> !OccursAt(x + pat, pat, j)
    ensures RemoveAll(x + pat + y, pat) == x + RemoveAll(y, pat)
  {
    var s := x + pat + y;
    assert s[|x|..|x| + |pat|] == pat;
    assert OccursAt(s, pat, |x|);
    forall j | 0 <= j < |x| ensures !OccursAt(s, pat, j) {
      assert s[j..j + |pat|] == (x + pat)[j..j + |pat|];
      assert !OccursAt(x + pat, pat, j);
    }
    assert Find(s, pat) == Some(|x|);
    assert s[..|x|] == x;
    assert s[|x| + |pat|..] == y;
  }

  /** No occurrence of a pattern starts inside text that lacks its first
      character. */
  lemma FirstCharAbsent(x: string, pat: string)
    requires pat != [] && pat[0] !in x
    ensures forall j :: 0 <= j < |x| ==> !OccursAt(x + pat, pat, j)
  {
    forall j | 0 <= j < |x| ensures !OccursAt(x + pat, pat, j) {
      assert (x + pat)[j..j + |pat|][0] == x[j];
    }
  }

  /** Python's `s.replace(a, b)` for single characters. */
  function ReplaceChar(s: string, a: char, b: char): (r: string)
    ensures |r| == |s|
    ensures forall i :: 0 <= i < |s| ==> r[i] == (if s[i] == a then b else s[i])
  {
    if s == [] then [] else [if s[0] == a then b else s[0]] + ReplaceChar(s[1..], a, b)
  }

  /** Replacing a character by a non-space one keeps a string free of
      surrounding whitespace. */
  lemma ReplaceCharTrimmed(s: string, a: char, b: char)
    requires !IsSpace(b)
    requires s == [] || (!IsSpace(s[0]) && !IsSpace(s[|s| - 1]))
    ensures var r := ReplaceChar(s, a, b);
      r == [] || (!IsSpace(r[0]) && !IsSpace(r[|r| - 1]))
  {
  }

  /** The digits of `s`, in order, with every other character deleted (what
      `re.sub(r"\D", "", s)` leaves for ASCII input). */
  function DigitsOf(s: string): (d: string)
    ensures AllDigits(d) && |d| <= |s|
    ensures AllDigits(s) ==> d == s
    ensures d == [] <==> forall c :: c in s ==> !IsDigit(c)
  {
    if s == [] then []
    else if IsDigit(s[0]) then [s[0]] + DigitsOf(s[1..])
    else
      assert forall c :: c in s ==> c == s[0] || c in s[1..];
      DigitsOf(s[1..])
  }

  /** The digits of a concatenation are the digits of each part, in order. */
  lemma {:induction false} DigitsOfAppend(a: string, b: string)
    ensures DigitsOf(a + b) == DigitsOf(a) + DigitsOf(b)
  {
    if a != [] {
      assert (a + b)[0] == a[0];
      assert (a + b)[1..] == a[1..] + b;
      DigitsOfAppend(a[1..], b);
    } else {
      assert a + b == b;
    }
  }

  /** The integer a string of decimal digits spells, as `int(d)` reads it. */
  function DecimalValue(d: string): (n: nat)
    requires AllDigits(d)
  {
    if d == [] then 0 else 10 * DecimalValue(d[..|d| - 1]) + (d[|d| - 1] as int - '0' as int)
  }

  /** The decimal rendering of a natural number, as `str(n)` writes it. */
  function ShowNat(n: nat): (d: string)
    ensures d != [] && AllDigits(d)
  {
    if n < 10 then [('0' as int + n) as char] else ShowNat(n / 10) + [('0' as int + n % 10) as char]
  }

  /** `int(str(n)) == n`. */
  lemma {:induction false} ReadShowNat(n: nat)
    ensures DecimalValue(ShowNat(n)) == n
  {
    if n >= 10 {
      var d := ShowNat(n);
      assert d[..|d| - 1] == ShowNat(n / 10);
      ReadShowNat(n / 10);
    }
  }
}
