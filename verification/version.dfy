/**
  Version strings and their order: `parse_version`, the `PiprotVersion`
  class and its three-way comparison `__cmp__` with `__lt__`, `__eq__` and
  `is_prerelease`.

  A version is kept as its normalised string (trimmed, every `-` turned into
  `.`) and a list of integer parts, one per dot-separated piece, each the
  number spelled by the piece's digits alone. Comparison pads the shorter
  part list with zeros IN PLACE, lets the first differing part decide, and
  breaks a full tie by pre-release status. The order is not antisymmetric:
  two distinct pre-releases with equal parts are each less than the other.
*/
module Versioning {
  import opened Text

  /** The state of a `PiprotVersion`: its normalised string and its parts. */
  datatype Version = Version(version: string, parts: seq<int>)

  /** Trim surrounding whitespace and turn every `-` into `.`: each
      character of the trimmed text is kept, except that a `-` becomes `.`. */
  function Normalize(raw: string): (v: string)
    ensures '-' !in v
    ensures |v| == |Strip(raw)| <= |raw|
    ensures forall i :: 0 <= i < |v| ==> v[i] == (if Strip(raw)[i] == '-' then '.' else Strip(raw)[i])
    ensures v == [] || (!IsSpace(v[0]) && !IsSpace(v[|v| - 1]))
  {
    var s := Strip(raw);
    ReplaceCharTrimmed(s, '-', '.');
    ReplaceChar(s, '-', '.')
  }

  /** One part: the integer spelled by the piece's digits, 0 when it has none. */
  function PartValue(piece: string): (n: int)
    ensures n >= 0
    ensures AllDigits(piece) && piece != [] ==> n == DecimalValue(piece)
    ensures (forall c :: c in piece ==> !IsDigit(c)) ==> n == 0
  {
    var digits := DigitsOf(piece);
    if digits == [] then 0 else DecimalValue(digits)
  }

  /** The part list built from the pieces of a version string. */
  function PartsOf(pieces: seq<string>): (parts: seq<int>)
    ensures |parts| == |pieces|
    ensures forall i :: 0 <= i < |pieces| ==> parts[i] == PartValue(pieces[i])
  {
    seq(|pieces|, i requires 0 <= i < |pieces| => PartValue(pieces[i]))
  }

  /** `parse_version(raw)`: between one and five pieces give one part each;
      more pieces give no parts at all. */
  function ParseVersion(raw: string): (v: Version)
    ensures v.version == Normalize(raw)
    ensures |v.parts| <= 5
    ensures var pieces := Split(Normalize(raw), ".");
      if |pieces| <= 5 then v.parts == PartsOf(pieces) else v.parts == []
  {
    var version := Normalize(raw);
    var pieces := Split(version, ".");
    if 0 < |pieces| < 6 then Version(version, PartsOf(pieces)) else Version(version, [])
  }

  /** The alternatives of the pre-release regular expression, in its order. */
  const PrereleaseMarkers: seq<string> :=
    ["a", "b", "c", "rc", "alpha", "beta", "pre", "preview", "dev", "svn", "git"]

  /** `is_prerelease`: some marker occurs somewhere in the normalised string
      (case-sensitive substring search). */
  predicate MarksPrerelease(version: string) {
    exists m :: m in PrereleaseMarkers && Contains(version, m)
  }

  /** The part at index `i` once the list is padded with zeros. */
  function Part(parts: seq<int>, i: nat): int {
    if i < |parts| then parts[i] else 0
  }

  /** `parts` extended with trailing zeros to at least `n` entries, as the
      two padding loops of `__cmp__` leave it. */
  function Pad(parts: seq<int>, n: nat): (r: seq<int>)
    ensures |r| == if |parts| < n then n else |parts|
    ensures r[..|parts|] == parts
    ensures forall i :: 0 <= i < |r| ==> r[i] == Part(parts, i)
  {
    if |parts| < n then parts + seq(n - |parts|, _ => 0) else parts
  }

  /** `k` is the first index at which the padded part lists differ. */
  ghost predicate FirstPartDiff(p: seq<int>, q: seq<int>, k: nat) {
    (forall i: nat :: i < k ==> Part(p, i) == Part(q, i)) && Part(p, k) != Part(q, k)
  }

  /** The padded part lists agree everywhere. */
  ghost predicate PartsEqual(p: seq<int>, q: seq<int>) {
    forall i: nat :: Part(p, i) == Part(q, i)
  }

  /** The padded part lists are lexicographically less. */
  ghost predicate PartsLess(p: seq<int>, q: seq<int>) {
    exists k: nat :: FirstPartDiff(p, q, k) && Part(p, k) < Part(q, k)
  }

  /** The `for us, them in zip(...)` scan over two lists of equal length: the
      difference at the first differing position, or 0. */
  function FirstDifference(p: seq<int>, q: seq<int>): (d: int)
    requires |p| == |q|
    ensures d == 0 <==> p == q
    ensures d != 0 ==> exists k :: 0 <= k < |p| && p[..k] == q[..k] && p[k] != q[k] && d == p[k] - q[k]
  {
    if p == [] then 0
    else if p[0] != q[0] then (assert p[..0] == q[..0]; p[0] - q[0])
    else
      var d := FirstDifference(p[1..], q[1..]);
      assert p == [p[0]] + p[1..] && q == [q[0]] + q[1..];
      if d == 0 then d
      else
        var k :| 0 <= k < |p[1..]| && p[1..][..k] == q[1..][..k] && p[1..][k] != q[1..][k] && d == p[1..][k] - q[1..][k];
        assert p[..k + 1] == [p[0]] + p[1..][..k];
        assert q[..k + 1] == [q[0]] + q[1..][..k];
        d
  }

  /** `__cmp__` on the states of two versions: 0 for identical strings;
      otherwise the first difference of the zero-padded parts; otherwise -1
      if the first is a pre-release, 1 if the second is, else 0. */
  function Compare(a: Version, b: Version): (c: int)
    ensures a.version == b.version ==> c == 0
    ensures c == 0 && a.version != b.version ==>
      !MarksPrerelease(a.version) && !MarksPrerelease(b.version)
  {
    if a.version == b.version then 0
    else
      var d := FirstDifference(Pad(a.parts, |b.parts|), Pad(b.parts, |a.parts|));
      if d != 0 then d
      else if MarksPrerelease(a.version) then -1
      else if MarksPrerelease(b.version) then 1
      else 0
  }

  /** `a < b` (`__lt__`). */
  predicate Less(a: Version, b: Version)
    ensures Less(a, b) ==> a.version != b.version
    ensures a.version != b.version && MarksPrerelease(a.version) && a.parts == b.parts ==> Less(a, b)
  {
    Compare(a, b) < 0
  }

  /** What `__cmp__` leaves in the parts of `mine` after comparing it with
      `theirs`: untouched for identical strings, otherwise padded. */
  function PadAgainst(mine: Version, theirs: Version): seq<int> {
    if mine.version == theirs.version then mine.parts else Pad(mine.parts, |theirs.parts|)
  }

  // ---------------------------------------------------------------------
  // What the comparison means

  /** The first index of difference is unique. */
  lemma FirstPartDiffUnique(p: seq<int>, q: seq<int>, k1: nat, k2: nat)
    requires FirstPartDiff(p, q, k1) && FirstPartDiff(p, q, k2)
    ensures k1 == k2
  {
  }

  /** The zip scan over the padded lists finds the first index where the
      zero-padded parts differ and returns the difference of the parts there. */
  lemma PaddedScan(p: seq<int>, q: seq<int>)
    ensures var d := FirstDifference(Pad(p, |q|), Pad(q, |p|));
      (d == 0 && PartsEqual(p, q))
      || (exists k: nat :: FirstPartDiff(p, q, k) && d == Part(p, k) - Part(q, k))
  {
    var P, Q := Pad(p, |q|), Pad(q, |p|);
    var d := FirstDifference(P, Q);
    var n := |P|;
    forall i: nat | n <= i ensures Part(p, i) == 0 && Part(q, i) == 0 { }
    if d == 0 {
      forall i: nat ensures Part(p, i) == Part(q, i) {
        if i < n { assert P[i] == Q[i]; }
      }
    } else {
      var k :| 0 <= k < n && P[..k] == Q[..k] && P[k] != Q[k] && d == P[k] - Q[k];
      forall i: nat | i < k ensures Part(p, i) == Part(q, i) {
        assert P[..k][i] == Q[..k][i];
      }
      assert FirstPartDiff(p, q, k);
    }
  }

  /** The sign of the scan is the lexicographic order of the padded parts. */
  lemma ScanSign(p: seq<int>, q: seq<int>)
    ensures var d := FirstDifference(Pad(p, |q|), Pad(q, |p|));
      && (d < 0 <==> PartsLess(p, q))
      && (d > 0 <==> PartsLess(q, p))
      && (d == 0 <==> PartsEqual(p, q))
  {
    var d := FirstDifference(Pad(p, |q|), Pad(q, |p|));
    PaddedScan(p, q);
    if d == 0 {
      assert PartsEqual(p, q);
      forall k: nat ensures !FirstPartDiff(p, q, k) && !FirstPartDiff(q, p, k) {
        assert Part(p, k) == Part(q, k);
      }
    } else {
      var k: nat :| FirstPartDiff(p, q, k) && d == Part(p, k) - Part(q, k);
      assert !PartsEqual(p, q) by { assert Part(p, k) != Part(q, k); }
      if PartsLess(q, p) {
        var k2 :| FirstPartDiff(q, p, k2) && Part(q, k2) < Part(p, k2);
        assert FirstPartDiff(p, q, k2);
        FirstPartDiffUnique(p, q, k, k2);
      }
      if PartsLess(p, q) {
        var k2 :| FirstPartDiff(p, q, k2) && Part(p, k2) < Part(q, k2);
        FirstPartDiffUnique(p, q, k, k2);
      }
      assert FirstPartDiff(q, p, k);
    }
  }

  /** The full meaning of `__cmp__`: which of less, equal and greater it
      reports, in terms of the zero-padded parts and pre-release status. */
  lemma CompareMeaning(a: Version, b: Version)
    ensures Compare(a, b) < 0 <==>
      a.version != b.version
      && (PartsLess(a.parts, b.parts) || (PartsEqual(a.parts, b.parts) && MarksPrerelease(a.version)))
    ensures Compare(a, b) == 0 <==>
      a.version == b.version
      || (PartsEqual(a.parts, b.parts) && !MarksPrerelease(a.version) && !MarksPrerelease(b.version))
    ensures Compare(a, b) > 0 <==>
      a.version != b.version
      && (PartsLess(b.parts, a.parts)
          || (PartsEqual(a.parts, b.parts) && !MarksPrerelease(a.version) && MarksPrerelease(b.version)))
  {
    ScanSign(a.parts, b.parts);
  }

  /** Exactly one of less, equal, greater holds for padded part lists. */
  lemma PartsTrichotomy(p: seq<int>, q: seq<int>)
    ensures PartsLess(p, q) || PartsEqual(p, q) || PartsLess(q, p)
    ensures !(PartsLess(p, q) && PartsEqual(p, q))
    ensures !(PartsLess(q, p) && PartsEqual(p, q))
    ensures !(PartsLess(p, q) && PartsLess(q, p))
  {
    ScanSign(p, q);
  }

  /** The lexicographic order of padded parts is transitive. */
  lemma PartsLessTransitive(p: seq<int>, q: seq<int>, r: seq<int>)
    requires PartsLess(p, q) && PartsLess(q, r)
    ensures PartsLess(p, r)
  {
    var k1 :| FirstPartDiff(p, q, k1) && Part(p, k1) < Part(q, k1);
    var k2 :| FirstPartDiff(q, r, k2) && Part(q, k2) < Part(r, k2);
    var k := if k1 < k2 then k1 else k2;
    assert FirstPartDiff(p, r, k);
  }

  /** Two part lists that agree once padded compare the same way against
      everything. */
  lemma PartsEqualCongruent(p: seq<int>, p2: seq<int>, q: seq<int>)
    requires PartsEqual(p, p2)
    ensures PartsLess(p, q) == PartsLess(p2, q)
    ensures PartsLess(q, p) == PartsLess(q, p2)
    ensures PartsEqual(p, q) == PartsEqual(p2, q)
  {
    if PartsLess(p, q) {
      var k :| FirstPartDiff(p, q, k) && Part(p, k) < Part(q, k);
      assert FirstPartDiff(p2, q, k);
    }
    if PartsLess(p2, q) {
      var k :| FirstPartDiff(p2, q, k) && Part(p2, k) < Part(q, k);
      assert FirstPartDiff(p, q, k);
    }
    if PartsLess(q, p) {
      var k :| FirstPartDiff(q, p, k) && Part(q, k) < Part(p, k);
      assert FirstPartDiff(q, p2, k);
    }
    if PartsLess(q, p2) {
      var k :| FirstPartDiff(q, p2, k) && Part(q, k) < Part(p2, k);
      assert FirstPartDiff(q, p, k);
    }
  }

  /** The zip scan sees only the zero-padded parts: replacing a list by one
      that agrees with it once padded leaves the scan's result unchanged. */
  lemma ScanCongruent(p: seq<int>, p2: seq<int>, q: seq<int>)
    requires PartsEqual(p, p2)
    ensures FirstDifference(Pad(p, |q|), Pad(q, |p|)) == FirstDifference(Pad(p2, |q|), Pad(q, |p2|))
  {
    var d1 := FirstDifference(Pad(p, |q|), Pad(q, |p|));
    var d2 := FirstDifference(Pad(p2, |q|), Pad(q, |p2|));
    PaddedScan(p, q);
    PaddedScan(p2, q);
    if d1 != 0 {
      var k1: nat :| FirstPartDiff(p, q, k1) && d1 == Part(p, k1) - Part(q, k1);
      assert FirstPartDiff(p2, q, k1);
      assert !PartsEqual(p2, q);
      var k2: nat :| FirstPartDiff(p2, q, k2) && d2 == Part(p2, k2) - Part(q, k2);
      FirstPartDiffUnique(p2, q, k1, k2);
    }
  }

  /** The same, with the list on the right of the scan. */
  lemma ScanCongruentRight(q: seq<int>, p: seq<int>, p2: seq<int>)
    requires PartsEqual(p, p2)
    ensures FirstDifference(Pad(q, |p|), Pad(p, |q|)) == FirstDifference(Pad(q, |p2|), Pad(p2, |q|))
  {
    var d1 := FirstDifference(Pad(q, |p|), Pad(p, |q|));
    var d2 := FirstDifference(Pad(q, |p2|), Pad(p2, |q|));
    PaddedScan(q, p);
    PaddedScan(q, p2);
    if d1 != 0 {
      var k1: nat :| FirstPartDiff(q, p, k1) && d1 == Part(q, k1) - Part(p, k1);
      assert FirstPartDiff(q, p2, k1);
      assert !PartsEqual(q, p2);
      var k2: nat :| FirstPartDiff(q, p2, k2) && d2 == Part(q, k2) - Part(p2, k2);
      FirstPartDiffUnique(q, p2, k1, k2);
    }
  }

  /** Padding in place is harmless: a version whose parts were padded by an
      earlier comparison compares exactly as before, on either side. This is
      why the mutation inside `__cmp__` never changes a later result. */
  lemma PaddingKeepsCompare(a: Version, n: nat, b: Version)
    ensures Compare(Version(a.version, Pad(a.parts, n)), b) == Compare(a, b)
    ensures Compare(b, Version(a.version, Pad(a.parts, n))) == Compare(b, a)
  {
    var padded := Pad(a.parts, n);
    assert PartsEqual(a.parts, padded) by {
      forall i: nat ensures Part(a.parts, i) == Part(padded, i) { }
    }
    ScanCongruent(a.parts, padded, b.parts);
    ScanCongruentRight(b.parts, a.parts, padded);
  }

  /** Swapping the operands flips the sign, except in the one case the
      tie-break gets wrong: distinct pre-releases with equal parts. */
  lemma CompareFlips(a: Version, b: Version)
    requires !(a.version != b.version && PartsEqual(a.parts, b.parts)
               && MarksPrerelease(a.version) && MarksPrerelease(b.version))
    ensures Compare(a, b) < 0 <==> Compare(b, a) > 0
    ensures Compare(a, b) == 0 <==> Compare(b, a) == 0
  {
    CompareMeaning(a, b);
    CompareMeaning(b, a);
    PartsTrichotomy(a.parts, b.parts);
    assert PartsEqual(a.parts, b.parts) <==> PartsEqual(b.parts, a.parts);
  }

  /** `<` is transitive as long as the two ends are different strings (for
      identical strings `__cmp__` answers 0 before looking at anything). */
  lemma LessTransitive(a: Version, b: Version, c: Version)
    requires Less(a, b) && Less(b, c) && a.version != c.version
    ensures Less(a, c)
  {
    CompareMeaning(a, b);
    CompareMeaning(b, c);
    CompareMeaning(a, c);
    if PartsLess(a.parts, b.parts) && PartsLess(b.parts, c.parts) {
      PartsLessTransitive(a.parts, b.parts, c.parts);
    } else if PartsLess(a.parts, b.parts) {
      PartsEqualCongruent(b.parts, c.parts, a.parts);
    } else if PartsLess(b.parts, c.parts) {
      PartsEqualCongruent(a.parts, b.parts, c.parts);
    } else {
      assert PartsEqual(a.parts, c.parts) by {
        forall i: nat ensures Part(a.parts, i) == Part(c.parts, i) {
          assert Part(a.parts, i) == Part(b.parts, i);
        }
      }
    }
  }

  /** The padded part lists are less or equal, read off the zip scan. */
  predicate PartsAtMost(p: seq<int>, q: seq<int>) {
    FirstDifference(Pad(p, |q|), Pad(q, |p|)) <= 0
  }

  /** The padded part lists are strictly less, read off the zip scan. */
  predicate PartsBelow(p: seq<int>, q: seq<int>) {
    FirstDifference(Pad(p, |q|), Pad(q, |p|)) < 0
  }

  /** The two scan-based orders are the lexicographic orders of the padded
      lists. */
  lemma PartsOrderMeaning(p: seq<int>, q: seq<int>)
    ensures PartsAtMost(p, q) <==> PartsLess(p, q) || PartsEqual(p, q)
    ensures PartsBelow(p, q) <==> PartsLess(p, q)
  {
    ScanSign(p, q);
  }

  /** `PartsAtMost` is reflexive. */
  lemma PartsAtMostReflexive(p: seq<int>)
    ensures PartsAtMost(p, p)
  {
    assert Pad(p, |p|) == p;
  }

  /** `PartsAtMost` is transitive, and strict as soon as one step is. */
  lemma PartsAtMostTransitive(p: seq<int>, q: seq<int>, r: seq<int>)
    requires PartsAtMost(p, q) && PartsAtMost(q, r)
    ensures PartsAtMost(p, r)
    ensures PartsBelow(p, q) || PartsBelow(q, r) ==> PartsBelow(p, r)
  {
    PartsOrderMeaning(p, q);
    PartsOrderMeaning(q, r);
    PartsOrderMeaning(p, r);
    if PartsLess(p, q) && PartsLess(q, r) {
      PartsLessTransitive(p, q, r);
    } else if PartsLess(p, q) {
      PartsEqualCongruent(q, r, p);
    } else if PartsLess(q, r) {
      PartsEqualCongruent(p, q, r);
    } else {
      assert PartsEqual(p, r) by {
        forall i: nat ensures Part(p, i) == Part(r, i) {
          assert Part(p, i) == Part(q, i);
        }
      }
    }
  }

  /** What `<` and its negation say about the parts: `a < b` puts the parts
      of `a` at or below those of `b`, and `a < b` failing puts the parts of
      `b` at or below those of `a`, as long as equal strings carry equal
      parts (as parsed versions do, `SameStringSameParts`). */
  lemma LessBoundsParts(a: Version, b: Version)
    requires a.version == b.version ==> a.parts == b.parts
    ensures Less(a, b) ==> PartsAtMost(a.parts, b.parts)
    ensures !Less(a, b) ==> PartsAtMost(b.parts, a.parts)
    ensures Less(a, b) && !MarksPrerelease(a.version) ==> PartsBelow(a.parts, b.parts)
  {
    CompareMeaning(a, b);
    PartsTrichotomy(a.parts, b.parts);
    PartsOrderMeaning(a.parts, b.parts);
    PartsOrderMeaning(b.parts, a.parts);
    if a.version == b.version || PartsEqual(a.parts, b.parts) {
      assert PartsEqual(b.parts, a.parts);
    }
  }

  /** Parsing sees a string only through its normalised form, so two
      strings that normalise alike parse alike. */
  lemma SameStringSameParts(x: string, y: string)
    requires ParseVersion(x).version == ParseVersion(y).version
    ensures ParseVersion(x) == ParseVersion(y)
  {
  }

  // ---------------------------------------------------------------------
  // Pre-release markers

  /** The markers that matter: `rc`, `alpha`, `beta` and `preview` each
      contain one of these, so the regular expression matches exactly when
      one of these seven occurs. */
  const CoreMarkers: seq<string> := ["a", "b", "c", "pre", "dev", "svn", "git"]

  /** An occurrence of a marker at `i` contains an occurrence of `inner` at
      `i + off`. */
  lemma OccursInside(s: string, outer: string, inner: string, i: int, off: nat)
    requires OccursAt(s, outer, i)
    requires off + |inner| <= |outer| && outer[off..off + |inner|] == inner
    ensures OccursAt(s, inner, i + off)
  {
    forall j | 0 <= j < |inner| ensures s[i + off + j] == inner[j] {
      assert s[i..i + |outer|][off + j] == outer[off + j];
      assert outer[off..off + |inner|][j] == outer[off + j];
    }
    assert s[i + off..i + off + |inner|] == inner;
  }

  lemma {:induction false} MarkersReduce(version: string)
    ensures MarksPrerelease(version) <==> exists m :: m in CoreMarkers && Contains(version, m)
  {
    if MarksPrerelease(version) {
      var m, i :| m in PrereleaseMarkers && 0 <= i <= |version| && OccursAt(version, m, i);
      if m == "rc" {
        OccursInside(version, m, "c", i, 1);
        assert "c" in CoreMarkers;
      } else if m == "alpha" {
        OccursInside(version, m, "a", i, 0);
        assert "a" in CoreMarkers;
      } else if m == "beta" {
        OccursInside(version, m, "b", i, 0);
        assert "b" in CoreMarkers;
      } else if m == "preview" {
        OccursInside(version, m, "pre", i, 0);
        assert "pre" in CoreMarkers;
      } else {
        assert m in CoreMarkers;
      }
    }
    if exists m :: m in CoreMarkers && Contains(version, m) {
      var m :| m in CoreMarkers && Contains(version, m);
      assert m in PrereleaseMarkers;
    }
  }

  /** Every marker starts with a lower-case letter, so a string without one
      is never a pre-release. */
  lemma NoLetterNoPrerelease(version: string)
    requires forall i :: 0 <= i < |version| ==> !('a' <= version[i] <= 'z')
    ensures !MarksPrerelease(version)
  {
    forall m, i | m in PrereleaseMarkers && 0 <= i <= |version| ensures !OccursAt(version, m, i) {
      if i + |m| <= |version| {
        assert version[i..i + |m|][0] == version[i];
      }
    }
  }

  // ---------------------------------------------------------------------
  // Parsing a rendered version gives its parts back

  /** The dotted rendering of a list of non-negative integers, `"3.3.0.20"`. */
  function Render(parts: seq<nat>): (s: string)
    requires |parts| >= 1
  {
    Join(ShowAll(parts), ".")
  }

  /** The decimal rendering of each part. */
  function ShowAll(parts: seq<nat>): (pieces: seq<string>)
    ensures |pieces| == |parts|
    ensures forall k :: 0 <= k < |parts| ==> pieces[k] == ShowNat(parts[k])
  {
    if parts == [] then [] else [ShowNat(parts[0])] + ShowAll(parts[1..])
  }

  /** Only decimal digits and dots. */
  predicate DigitsAndDots(s: string) {
    forall i :: 0 <= i < |s| ==> IsDigit(s[i]) || s[i] == '.'
  }

  lemma {:induction false} JoinDigitsDots(pieces: seq<string>)
    requires |pieces| >= 1
    requires forall k :: 0 <= k < |pieces| ==> AllDigits(pieces[k])
    ensures DigitsAndDots(Join(pieces, "."))
    decreases |pieces|
  {
    if |pieces| > 1 {
      var t := Join(pieces[1..], ".");
      JoinDigitsDots(pieces[1..]);
      var s := Join(pieces, ".");
      assert s == pieces[0] + "." + t;
      assert AllDigits(pieces[0]);
      assert DigitsAndDots(t);
      forall i | 0 <= i < |s| ensures IsDigit(s[i]) || s[i] == '.' {
        if i < |pieces[0]| {
          assert s[i] == pieces[0][i];
        } else if i > |pieces[0]| {
          var j := i - |pieces[0]| - 1;
          assert s[i] == t[j];
          assert IsDigit(t[j]) || t[j] == '.';
        } else {
          assert s[i] == '.';
        }
      }
    }
  }

  /** `parse_version` reads back the parts of any rendered list of one to
      five non-negative integers, and keeps the rendering as its string. */
  lemma ParseRender(parts: seq<nat>)
    requires 1 <= |parts| <= 5
    ensures ParseVersion(Render(parts)) == Version(Render(parts), parts)
    ensures !MarksPrerelease(Render(parts))
  {
    RenderNormal(parts);
    RenderSplits(parts);
    ShowAllValues(parts);
  }

  /** A rendering is already normalised and holds no pre-release marker. */
  lemma RenderNormal(parts: seq<nat>)
    requires 1 <= |parts|
    ensures Normalize(Render(parts)) == Render(parts)
    ensures !MarksPrerelease(Render(parts))
  {
    JoinDigitsDots(ShowAll(parts));
    DigitsAndDotsPlain(Render(parts));
  }

  /** A rendering splits at its dots into the decimal pieces. */
  lemma RenderSplits(parts: seq<nat>)
    requires 1 <= |parts|
    ensures Split(Render(parts), ".") == ShowAll(parts)
  {
    ShowAllDotFree(parts);
    SplitJoin(ShowAll(parts), '.');
  }

  /** No decimal piece holds a dot. */
  lemma ShowAllDotFree(parts: seq<nat>)
    ensures forall k :: 0 <= k < |parts| ==> '.' !in ShowAll(parts)[k]
  {
    var pieces := ShowAll(parts);
    forall k | 0 <= k < |pieces| ensures '.' !in pieces[k] {
      assert AllDigits(pieces[k]);
    }
  }

  /** A string of digits and dots is its own normal form and marks no
      pre-release. */
  lemma DigitsAndDotsPlain(s: string)
    requires DigitsAndDots(s)
    ensures Normalize(s) == s && !MarksPrerelease(s)
  {
    forall i | 0 <= i < |s| ensures !IsSpace(s[i]) && s[i] != '-' && !('a' <= s[i] <= 'z') {
      assert IsDigit(s[i]) || s[i] == '.';
    }
    StripNoSpace(s);
    assert ReplaceChar(s, '-', '.') == s;
    NoLetterNoPrerelease(s);
  }

  /** The decimal pieces read back as the parts. */
  lemma ShowAllValues(parts: seq<nat>)
    ensures PartsOf(ShowAll(parts)) == parts
  {
    var pieces := ShowAll(parts);
    forall k | 0 <= k < |parts| ensures PartValue(pieces[k]) == parts[k] {
      ReadShowNat(parts[k]);
    }
  }

  /** Rendered release versions compare exactly as their zero-padded part
      lists do, numerically and position by position. */
  lemma RenderedOrder(p: seq<nat>, q: seq<nat>)
    requires 1 <= |p| <= 5 && 1 <= |q| <= 5
    ensures Less(ParseVersion(Render(p)), ParseVersion(Render(q))) <==> PartsLess(p, q)
    ensures Compare(ParseVersion(Render(p)), ParseVersion(Render(q))) == 0 <==> PartsEqual(p, q)
  {
    ParseRender(p);
    ParseRender(q);
    var a, b := ParseVersion(Render(p)), ParseVersion(Render(q));
    CompareMeaning(a, b);
    PartsTrichotomy(p, q);
    if Render(p) == Render(q) {
      assert p == q;
      assert PartsEqual(p, q);
    }
  }

  /** Numeric, not textual, parts: among versions that agree up to their
      last part, the last part decides by its value (`3.3.0.2 < 3.3.0.20 <
      3.3.0.22`, and `3.3.0.9 < 3.3.0.10` although "9" sorts after "10"). */
  lemma LastPartDecides(p: seq<nat>, a: nat, b: nat)
    requires |p| <= 4
    ensures Less(ParseVersion(Render(p + [a])), ParseVersion(Render(p + [b]))) <==> a < b
  {
    var x, y := p + [a], p + [b];
    RenderedOrder(x, y);
    assert Part(x, |p|) == a && Part(y, |p|) == b;
    forall i: nat | i < |p| ensures Part(x, i) == Part(y, i) {
      assert x[i] == p[i] && y[i] == p[i];
    }
    if a < b {
      assert FirstPartDiff(x, y, |p|);
    }
  }

  /** Length mismatch is padded with zeros: a version extended by a
      positive part is above it (`3.2 < 3.2.1`). */
  lemma ExtensionIsGreater(p: seq<nat>, x: nat)
    requires 1 <= |p| <= 4 && x > 0
    ensures Less(ParseVersion(Render(p)), ParseVersion(Render(p + [x])))
  {
    var q := p + [x];
    RenderedOrder(p, q);
    forall i: nat | i < |p| ensures Part(p, i) == Part(q, i) {
      assert q[i] == p[i];
    }
    assert FirstPartDiff(p, q, |p|);
  }

  /** Trailing zeros do not count: `1.0` and `1.0.0` compare equal although
      their strings differ. */
  lemma TrailingZerosEqual(p: seq<nat>)
    requires 1 <= |p| <= 4
    ensures Compare(ParseVersion(Render(p)), ParseVersion(Render(p + [0]))) == 0
    ensures ParseVersion(Render(p)).version != ParseVersion(Render(p + [0])).version
  {
    var q := p + [0];
    RenderedOrder(p, q);
    ZeroExtensionEqual(p);
    DistinctRenderings(p, q);
  }

  /** A trailing zero part changes no padded position. */
  lemma ZeroExtensionEqual(p: seq<int>)
    ensures PartsEqual(p, p + [0])
  {
    var q := p + [0];
    forall i: nat ensures Part(p, i) == Part(q, i) {
      if i < |p| {
        assert q[i] == p[i];
      }
    }
  }

  /** Different part lists render to different strings. */
  lemma DistinctRenderings(p: seq<nat>, q: seq<nat>)
    requires 1 <= |p| <= 5 && 1 <= |q| <= 5 && p != q
    ensures ParseVersion(Render(p)).version != ParseVersion(Render(q)).version
  {
    ParseRender(p);
    ParseRender(q);
  }

  /** A string without whitespace or dashes that is the dotted join of one to
      five dot-free pieces parses to the values of those pieces. */
  lemma ParsesFromPieces(raw: string, pieces: seq<string>)
    requires 1 <= |pieces| <= 5
    requires forall i :: 0 <= i < |raw| ==> !IsSpace(raw[i]) && raw[i] != '-'
    requires forall k :: 0 <= k < |pieces| ==> '.' !in pieces[k]
    requires Join(pieces, ".") == raw
    ensures Normalize(raw) == raw && Split(raw, ".") == pieces
    ensures ParseVersion(raw) == Version(raw, PartsOf(pieces))
  {
    StripNoSpace(raw);
    assert Normalize(raw) == raw;
    SplitJoin(pieces, '.');
  }

  /** The parts of a piece with letters: `"1.0rc1"` splits into `1` and
      `0rc1`, whose digits `01` read as 1, so its parts are `[1, 1]`. */
  lemma ParseWithLetters(raw: string, pieces: seq<string>)
    requires raw == "1.0rc1" && pieces == ["1", "0rc1"]
    ensures ParseVersion(raw) == Version(raw, [1, 1])
  {
    CandidatePieces(raw, pieces);
    ParsesFromPieces(raw, pieces);
    CandidateValues(pieces);
  }

  /** The pieces `1` and `0rc1` have the values 1 and 1. */
  lemma CandidateValues(pieces: seq<string>)
    requires pieces == ["1", "0rc1"]
    ensures PartsOf(pieces) == [1, 1]
  {
    LettersDropped(pieces[1]);
    assert PartValue(pieces[0]) == 1;
  }

  /** The preconditions of `ParsesFromPieces` for `"1.0rc1"`. */
  lemma CandidatePieces(raw: string, pieces: seq<string>)
    requires raw == "1.0rc1" && pieces == ["1", "0rc1"]
    ensures forall i :: 0 <= i < |raw| ==> !IsSpace(raw[i]) && raw[i] != '-'
    ensures forall k :: 0 <= k < |pieces| ==> '.' !in pieces[k]
  {
    forall i | 0 <= i < |raw| ensures !IsSpace(raw[i]) && raw[i] != '-' { }
  }

  /** `"1.0rc1"` holds the marker `rc`. */
  lemma CandidateMarked(raw: string)
    requires raw == "1.0rc1"
    ensures MarksPrerelease(raw)
  {
    assert OccursAt(raw, "rc", 3);
    assert "rc" in PrereleaseMarkers;
  }

  /** The digits of the piece `0rc1` read as 1. */
  lemma LettersDropped(piece: string)
    requires piece == "0rc1"
    ensures PartValue(piece) == 1
  {
    assert DigitsOf(piece[3..]) == "1";
    assert DigitsOf(piece[2..]) == "1";
    assert DigitsOf(piece[1..]) == "1";
    assert DigitsOf(piece) == "01";
    assert DecimalValue("01") == 1;
  }

  /** A release candidate sorts ABOVE its final release: `"1.0"` parses to
      `[1, 0]` (`ParseRender` with the parts `[1, 0]`), `"1.0rc1"` to
      `[1, 1]` (`ParseWithLetters`),
      and the parsed values compare by their parts although the candidate
      is a pre-release (`CandidateMarked`). */
  lemma ReleaseCandidateAboveFinal(final: Version, candidate: Version)
    requires final == Version("1.0", [1, 0]) && candidate == Version("1.0rc1", [1, 1])
    ensures Less(final, candidate) && !Less(candidate, final)
  {
    PartsDecide(final, candidate, 1);
  }

  /** Padded parts that are strictly less make a version lower, and not
      higher, whatever its pre-release markers say. */
  lemma PartsDecide(a: Version, b: Version, k: nat)
    requires a.version != b.version
    requires k < |a.parts| == |b.parts| && a.parts[..k] == b.parts[..k] && a.parts[k] < b.parts[k]
    ensures Less(a, b) && !Less(b, a)
  {
    forall i: nat | i < k ensures Part(a.parts, i) == Part(b.parts, i) {
      assert a.parts[i] == a.parts[..k][i];
    }
    assert FirstPartDiff(a.parts, b.parts, k);
    CompareMeaning(a, b);
    CompareMeaning(b, a);
    PartsTrichotomy(a.parts, b.parts);
  }

  /** The order is not antisymmetric: two distinct pre-releases with equal
      parts are each less than the other. */
  lemma PrereleasesEachLess(a: Version, b: Version)
    requires a.version != b.version && PartsEqual(a.parts, b.parts)
    requires MarksPrerelease(a.version) && MarksPrerelease(b.version)
    ensures Less(a, b) && Less(b, a)
  {
    CompareMeaning(a, b);
    CompareMeaning(b, a);
    assert PartsEqual(b.parts, a.parts);
  }

  /** The same, for a concrete pair: `1.0a` and `1.0b`. */
  lemma NotAntisymmetric()
    ensures Less(Version("1.0a", [1, 0]), Version("1.0b", [1, 0]))
    ensures Less(Version("1.0b", [1, 0]), Version("1.0a", [1, 0]))
  {
    assert OccursAt("1.0a", "a", 3) && OccursAt("1.0b", "b", 3);
    assert "a" in PrereleaseMarkers && "b" in PrereleaseMarkers;
    PrereleasesEachLess(Version("1.0a", [1, 0]), Version("1.0b", [1, 0]));
  }

  // ---------------------------------------------------------------------
  // The class

  /** A parsed version. `parts` is padded in place by every comparison. */
  class PiprotVersion {
    const version: string
    var parts: seq<int>

    /** `PiprotVersion(version, pieces)`: one part per piece. */
    constructor (version: string, pieces: seq<string>)
      ensures this.version == version
      ensures parts == PartsOf(pieces)
    {
      this.version := version;
      parts := PartsOf(pieces);
    }

    function Value(): Version
      reads this
    {
      Version(version, parts)
    }

    predicate IsPrerelease() {
      MarksPrerelease(version)
    }

    /** `__cmp__`: pads the shorter part list of the two objects with zeros,
        then scans. The result is `Compare` of the states before the call. */
    method Cmp(other: PiprotVersion) returns (r: int)
      modifies this, other
      ensures r == Compare(old(Value()), old(other.Value()))
      ensures parts == PadAgainst(old(Value()), old(other.Value()))
      ensures other.parts == PadAgainst(old(other.Value()), old(Value()))
    {
      if version == other.version {
        return 0;
      }
      PadParts(other);
      var i := 0;
      while i < |parts|
        invariant 0 <= i <= |parts| == |other.parts|
        invariant parts[..i] == other.parts[..i]
      {
        if parts[i] != other.parts[i] {
          ScanAt(parts, other.parts, i);
          return parts[i] - other.parts[i];
        }
        assert parts[..i + 1] == parts[..i] + [parts[i]];
        assert other.parts[..i + 1] == other.parts[..i] + [other.parts[i]];
        i := i + 1;
      }
      assert parts == parts[..i] && other.parts == other.parts[..i];
      if IsPrerelease() {
        return -1;
      }
      if other.IsPrerelease() {
        return 1;
      }
      return 0;
    }

    /** The two padding loops of `__cmp__`: the shorter part list of the
        two objects is extended with zeros to the length of the longer. */
    method PadParts(other: PiprotVersion)
      requires other != this
      modifies this, other
      ensures parts == Pad(old(parts), |old(other.parts)|)
      ensures other.parts == Pad(old(other.parts), |old(parts)|)
    {
      ghost var p, q := parts, other.parts;
      while |parts| > |other.parts|
        invariant parts == p
        invariant |q| <= |other.parts| && other.parts == Pad(q, |other.parts|)
        invariant |other.parts| == |q| || |other.parts| <= |parts|
        decreases |parts| - |other.parts|
      {
        other.parts := other.parts + [0];
      }
      while |other.parts| > |parts|
        invariant other.parts == Pad(q, |p|)
        invariant |p| <= |parts| && parts == Pad(p, |parts|)
        invariant |parts| == |p| || |parts| <= |other.parts|
        decreases |other.parts| - |parts|
      {
        parts := parts + [0];
      }
    }

    /** `__lt__`. */
    method Lt(other: PiprotVersion) returns (b: bool)
      modifies this, other
      ensures b <==> Less(old(Value()), old(other.Value()))
      ensures parts == PadAgainst(old(Value()), old(other.Value()))
      ensures other.parts == PadAgainst(old(other.Value()), old(Value()))
    {
      var c := Cmp(other);
      b := c < 0;
    }

    /** `__eq__`. */
    method Eq(other: PiprotVersion) returns (b: bool)
      modifies this, other
      ensures b <==> Compare(old(Value()), old(other.Value())) == 0
      ensures parts == PadAgainst(old(Value()), old(other.Value()))
      ensures other.parts == PadAgainst(old(other.Value()), old(Value()))
    {
      var c := Cmp(other);
      b := c == 0;
    }
  }

  /** The scan stops at the first differing index with that difference. */
  lemma ScanAt(p: seq<int>, q: seq<int>, k: nat)
    requires |p| == |q| && k < |p| && p[..k] == q[..k] && p[k] != q[k]
    ensures FirstDifference(p, q) == p[k] - q[k]
  {
    var d := FirstDifference(p, q);
    var j :| 0 <= j < |p| && p[..j] == q[..j] && p[j] != q[j] && d == p[j] - q[j];
    forall i | 0 <= i < k ensures p[i] == q[i] {
      assert p[..k][i] == q[..k][i];
    }
    forall i | 0 <= i < j ensures p[i] == q[i] {
      assert p[..j][i] == q[..j][i];
    }
  }
}
