/**
  `VersionParser` (rapidctl/utils/version.py): classification of an image tag
  as a semantic version, a numeric timestamp or a custom tag, and the
  piecewise three-way comparison of two tags.
*/
module Version {
  import opened Wrappers
  import opened Text

  datatype Kind = Semver | Timestamp | Custom

  /** The dict `parse` returns: its "type", "components" and "value". */
  datatype Version = Version(kind: Kind, components: seq<nat>, raw: string)

  // ---------------------------------------------------------------------
  // Classification
  // ---------------------------------------------------------------------

  /**
    `re.match(r'^(\d+)\.(\d+)\.(\d+)', t)` and the integers of its three groups.
    A `\d+` followed by `\.` can only end where the digits end, and the last
    group is greedy, so each group is a maximal run of digits.
  */
  function MatchTriple(t: string): (r: Option<seq<nat>>)
    ensures r.Some? ==> |r.value| == 3
    ensures r.Some? ==> t != [] && IsDigit(t[0])
  {
    var n1 := DigitRun(t);
    if n1 == 0 || n1 == |t| || t[n1] != '.' then None
    else
      var t2 := t[n1 + 1..];
      var n2 := DigitRun(t2);
      if n2 == 0 || n2 == |t2| || t2[n2] != '.' then None
      else
        var t3 := t2[n2 + 1..];
        var n3 := DigitRun(t3);
        if n3 == 0 then None
        else Some([Value(t[..n1]), Value(t2[..n2]), Value(t3[..n3])])
  }

  /**
    The regular expression `(\d+)\.(\d+)\.(\d+)` matches at the start of `t`
    with groups `t[..i]`, `t[i+1..j]` and `t[j+1..k]`, the last taking every
    digit it can.
  */
  predicate TripleAt(t: string, i: int, j: int, k: int)
  {
    && 0 < i && i + 1 < j && j + 1 < k <= |t|
    && t[i] == '.' && t[j] == '.'
    && (forall p :: 0 <= p < i ==> IsDigit(t[p]))
    && (forall p :: i < p < j ==> IsDigit(t[p]))
    && (forall p :: j < p < k ==> IsDigit(t[p]))
    && (k == |t| || !IsDigit(t[k]))
  }

  /** Where the regular expression matches, `MatchTriple` returns the integers of its groups. */
  lemma TripleAtMatches(t: string, i: int, j: int, k: int)
    requires TripleAt(t, i, j, k)
    ensures AllDigits(t[..i]) && AllDigits(t[i + 1..j]) && AllDigits(t[j + 1..k])
    ensures MatchTriple(t) == Some([Value(t[..i]), Value(t[i + 1..j]), Value(t[j + 1..k])])
  {
    TripleAtRuns(t, i, j, k);
    MatchTripleOf(t, t[i + 1..], t[j + 1..]);
  }

  /** The three groups of a match are the maximal digit runs `MatchTriple` measures. */
  lemma TripleAtRuns(t: string, i: int, j: int, k: int)
    requires TripleAt(t, i, j, k)
    ensures DigitRun(t) == i && t[i + 1..][j - i..] == t[j + 1..]
    ensures DigitRun(t[i + 1..]) == j - i - 1 && DigitRun(t[j + 1..]) == k - j - 1
    ensures t[i + 1..][..j - i - 1] == t[i + 1..j] && t[j + 1..][..k - j - 1] == t[j + 1..k]
    ensures AllDigits(t[..i]) && AllDigits(t[i + 1..j]) && AllDigits(t[j + 1..k])
  {
    DigitRunFrom(t, 0, i);
    assert t[0..] == t;
    DigitRunFrom(t, i + 1, j);
    DigitRunFrom(t, j + 1, k);
    assert t[i + 1..][j - i..] == t[j + 1..];
  }

  /** The digits of `t` from `a` up to a non-digit or the end at `b`: the run `\d+` takes there. */
  lemma DigitRunFrom(t: string, a: int, b: int)
    requires 0 <= a <= b <= |t|
    requires forall p :: a <= p < b ==> IsDigit(t[p])
    requires b == |t| || !IsDigit(t[b])
    ensures DigitRun(t[a..]) == b - a && AllDigits(t[a..b]) && t[a..][..b - a] == t[a..b]
    ensures a == 0 ==> t[..b] == t[a..b]
  {
    var u := t[a..];
    assert b == |t| || u[b - a] == t[b];
    DigitRunAt(u, b - a);
  }

  /** Where `MatchTriple` succeeds, the regular expression matches at the ends of its three digit runs. */
  lemma MatchesTripleAt(t: string)
    requires MatchTriple(t).Some?
    ensures exists i, j, k :: TripleAt(t, i, j, k)
  {
    var n1 := DigitRun(t);
    var t2 := t[n1 + 1..];
    var n2 := DigitRun(t2);
    var t3 := t2[n2 + 1..];
    MatchTripleSome(t);
    RunsTripleAt(t, t2, t3, n1, n2, DigitRun(t3));
  }

  /** A successful `MatchTriple` found two dots, each after a non-empty digit run, and a third run. */
  lemma MatchTripleSome(t: string)
    requires MatchTriple(t).Some?
    ensures var n1 := DigitRun(t); 0 < n1 < |t| && t[n1] == '.'
    ensures var t2 := t[DigitRun(t) + 1..]; var n2 := DigitRun(t2);
      0 < n2 < |t2| && t2[n2] == '.' && DigitRun(t2[n2 + 1..]) > 0
  {
  }

  /** Three digit runs, each of the first two followed by a dot, the last by a non-digit or the end. */
  lemma RunsTripleAt(t: string, t2: string, t3: string, n1: int, n2: int, n3: int)
    requires 0 < n1 < |t| && t[n1] == '.' && t2 == t[n1 + 1..] && forall p :: 0 <= p < n1 ==> IsDigit(t[p])
    requires 0 < n2 < |t2| && t2[n2] == '.' && t3 == t2[n2 + 1..] && forall p :: 0 <= p < n2 ==> IsDigit(t2[p])
    requires 0 < n3 <= |t3| && (n3 == |t3| || !IsDigit(t3[n3])) && forall p :: 0 <= p < n3 ==> IsDigit(t3[p])
    ensures t3 == t[n1 + n2 + 2..]
    ensures TripleAt(t, n1, n1 + 1 + n2, n1 + n2 + 2 + n3)
  {
    var j := n1 + 1 + n2;
    assert t2[n2] == t[j];
    assert t3 == t[j + 1..];
    forall p | n1 < p < j ensures IsDigit(t[p]) { assert t[p] == t2[p - n1 - 1]; }
    forall p | j < p < j + 1 + n3 ensures IsDigit(t[p]) { assert t[p] == t3[p - j - 1]; }
    assert j + 1 + n3 == |t| || t[j + 1 + n3] == t3[n3];
  }

  /**
    `MatchTriple` is the regular expression: it succeeds exactly when the
    pattern matches at the start of `t`, and then returns the integers of the
    three groups.
  */
  lemma MatchTripleMeans(t: string)
    ensures MatchTriple(t).Some? <==> exists i, j, k :: TripleAt(t, i, j, k)
    ensures forall i, j, k :: TripleAt(t, i, j, k) ==>
      && AllDigits(t[..i]) && AllDigits(t[i + 1..j]) && AllDigits(t[j + 1..k])
      && MatchTriple(t) == Some([Value(t[..i]), Value(t[i + 1..j]), Value(t[j + 1..k])])
  {
    forall i, j, k | TripleAt(t, i, j, k)
      ensures && AllDigits(t[..i]) && AllDigits(t[i + 1..j]) && AllDigits(t[j + 1..k])
              && MatchTriple(t) == Some([Value(t[..i]), Value(t[i + 1..j]), Value(t[j + 1..k])])
    {
      TripleAtMatches(t, i, j, k);
    }
    if MatchTriple(t).Some? {
      MatchesTripleAt(t);
    }
  }

  /** `is_semver`: `re.match(r'^v?\d+\.\d+\.\d+', s)`, with `v?` tried first present, then absent. */
  predicate IsSemver(s: string)
  {
    (s != [] && s[0] == 'v' && MatchTriple(s[1..]).Some?) || MatchTriple(s).Some?
  }

  /** `is_timestamp`: `s.isdigit()`, which is false on the empty string. */
  predicate IsTimestamp(s: string)
  {
    s != [] && AllDigits(s)
  }

  /** `s.lstrip('v')`: every leading `v` removed. */
  function LStripV(s: string): (r: string)
    ensures |r| <= |s| && r == s[|s| - |r|..]
    ensures forall k :: 0 <= k < |s| - |r| ==> s[k] == 'v'
    ensures r == [] || r[0] != 'v'
  {
    if s != [] && s[0] == 'v' then LStripV(s[1..]) else s
  }

  /** `re.match(r'^v?\d+\.\d+\.\d+', s)` succeeds exactly when the triple pattern matches at the start or after one `v`. */
  lemma IsSemverMeans(s: string)
    ensures IsSemver(s) <==>
      (exists i, j, k :: TripleAt(s, i, j, k)) ||
      (s != [] && s[0] == 'v' && exists i, j, k :: TripleAt(s[1..], i, j, k))
  {
    MatchTripleMeans(s);
    if s != [] {
      MatchTripleMeans(s[1..]);
    }
  }

  /** After `is_semver` holds, the second match on the `lstrip('v')`-ed string always succeeds. */
  lemma SemverRematches(s: string)
    requires IsSemver(s)
    ensures MatchTriple(LStripV(s)) == if s[0] == 'v' then MatchTriple(s[1..]) else MatchTriple(s)
  {
    if s[0] == 'v' {
      assert MatchTriple(s[1..]).Some?;
      assert LStripV(s) == LStripV(s[1..]) == s[1..];
    }
  }

  /** A string of digits has no dot, so it is never a semantic version. */
  lemma DigitsNotSemver(s: string)
    requires AllDigits(s)
    ensures !IsSemver(s)
  {
    DigitRunAll(s);
  }

  lemma {:induction false} DigitRunAll(s: string)
    requires AllDigits(s)
    ensures DigitRun(s) == |s|
  {
    if s != [] { DigitRunAll(s[1..]); }
  }

  /** `parse`: the classification, tried in the order semver, timestamp, custom. */
  function Parse(s: string): (v: Version)
    ensures v.raw == s
    ensures v.kind == Semver <==> IsSemver(s)
    ensures v.kind == Timestamp <==> IsTimestamp(s)
    ensures v.kind == Custom <==> !IsSemver(s) && !IsTimestamp(s)
    ensures v.kind == Semver ==> |v.components| == 3
    ensures v.kind == Timestamp ==> v.components == [Value(s)]
    ensures v.kind == Custom ==> v.components == []
  {
    if IsSemver(s) && MatchTriple(LStripV(s)).Some? then
      Version(Semver, MatchTriple(LStripV(s)).value, s)
    else if IsTimestamp(s) then
      ParseKindsConsistent(s);
      Version(Timestamp, [Value(s)], s)
    else
      ParseKindsConsistent(s);
      Version(Custom, [], s)
  }

  /** Helper for `Parse`: the fall-through after a failed rematch cannot be taken by a semantic version. */
  lemma ParseKindsConsistent(s: string)
    ensures IsSemver(s) ==> MatchTriple(LStripV(s)).Some?
    ensures IsTimestamp(s) ==> !IsSemver(s)
  {
    if IsSemver(s) { SemverRematches(s); }
    if IsTimestamp(s) { DigitsNotSemver(s); }
  }

  // ---------------------------------------------------------------------
  // Comparison
  // ---------------------------------------------------------------------

  /**
    The `zip` loop of `compare` followed by the length check: the first
    differing position decides; if one list runs out first it is smaller.
  */
  function LexCompare(xs: seq<nat>, ys: seq<nat>): (r: int)
    ensures -1 <= r <= 1
    ensures r == 0 <==> xs == ys
    decreases |xs|
  {
    if xs == [] || ys == [] then
      (if |xs| < |ys| then -1 else if |xs| > |ys| then 1 else 0)
    else if xs[0] < ys[0] then -1
    else if xs[0] > ys[0] then 1
    else
      var r := LexCompare(xs[1..], ys[1..]);
      assert xs == [xs[0]] + xs[1..] && ys == [ys[0]] + ys[1..];
      r
  }

  lemma {:induction false} LexCompareAntisymmetric(xs: seq<nat>, ys: seq<nat>)
    ensures LexCompare(xs, ys) == -LexCompare(ys, xs)
    decreases |xs|
  {
    if xs != [] && ys != [] && xs[0] == ys[0] {
      LexCompareAntisymmetric(xs[1..], ys[1..]);
    }
  }

  /** On triples the comparison is the usual lexicographic order of (major, minor, patch). */
  lemma TripleCompare(x: seq<nat>, y: seq<nat>)
    requires |x| == 3 && |y| == 3
    ensures LexCompare(x, y) == -1 <==>
      x[0] < y[0] || (x[0] == y[0] && (x[1] < y[1] || (x[1] == y[1] && x[2] < y[2])))
  {
    if x[0] == y[0] {
      assert x[1..][0] == x[1] && y[1..][0] == y[1];
      if x[1] == y[1] {
        assert x[1..][1..][0] == x[2] && y[1..][1..][0] == y[2];
        assert LexCompare(x[1..], y[1..]) == LexCompare(x[1..][1..], y[1..][1..]);
        // One more unfolding of `LexCompare`, on the third components: when they are
        // equal the result is that of the empty tails, which is 0.
        assert LexCompare(x[1..][1..], y[1..][1..]) == LexCompare(x[1..][1..][1..], y[1..][1..][1..])
          || x[2] != y[2];
      }
    }
  }

  /** `compare(version1, version2)`: -1, 0 or 1. */
  function Compare(a: string, b: string): (r: int)
    ensures -1 <= r <= 1
  {
    var va := Parse(a);
    var vb := Parse(b);
    if a == b then 0
    else if b == "latest" then (if a != "latest" then -1 else 0)
    else if a == "latest" then (if b != "latest" then 1 else 0)
    else if va.kind != vb.kind then
      if va.kind == Semver && vb.kind == Timestamp then -1
      else if va.kind == Timestamp && vb.kind == Semver then 1
      else StrCmp(a, b)
    else LexCompare(va.components, vb.components)
  }

  // ---------------------------------------------------------------------
  // Properties of the comparison
  // ---------------------------------------------------------------------

  lemma LatestIsCustom()
    ensures Parse("latest").kind == Custom
  {
    assert DigitRun("latest") == 0;
    assert !IsDigit("latest"[0]);
  }

  /** Semantic versions and timestamps are never the literal `"latest"`. */
  lemma NotLatest(s: string)
    requires IsSemver(s) || IsTimestamp(s)
    ensures s != "latest"
  {
    LatestIsCustom();
  }

  lemma CompareReflexive(x: string)
    ensures Compare(x, x) == 0
  {
  }

  /** `"latest"` is newer than every other tag, and equal only to itself. */
  lemma LatestDominates(y: string)
    ensures y != "latest" ==> Compare(y, "latest") == -1 && Compare("latest", y) == 1
    ensures Compare("latest", "latest") == 0
  {
  }

  /** Swapping the arguments negates the result. */
  lemma CompareAntisymmetric(a: string, b: string)
    ensures Compare(a, b) == -Compare(b, a)
  {
    var va, vb := Parse(a), Parse(b);
    if a != b && a != "latest" && b != "latest" {
      if va.kind != vb.kind {
        assert Compare(a, b) == if va.kind == Semver && vb.kind == Timestamp then -1
          else if va.kind == Timestamp && vb.kind == Semver then 1 else StrCmp(a, b);
        assert Compare(b, a) == if vb.kind == Semver && va.kind == Timestamp then -1
          else if vb.kind == Timestamp && va.kind == Semver then 1 else StrCmp(b, a);
      } else {
        LexCompareAntisymmetric(va.components, vb.components);
      }
    }
  }

  /** Any semantic version is older than any timestamp, whatever the numbers. */
  lemma SemverOlderThanTimestamp(a: string, b: string)
    requires IsSemver(a) && IsTimestamp(b)
    ensures Compare(a, b) == -1 && Compare(b, a) == 1
  {
    NotLatest(a);
    NotLatest(b);
    assert Parse(a).kind == Semver && Parse(b).kind == Timestamp;
  }

  /** Two semantic versions compare by their (major, minor, patch) triples. */
  lemma SemverOrder(a: string, b: string)
    requires IsSemver(a) && IsSemver(b)
    ensures var x, y := Parse(a).components, Parse(b).components;
      && (Compare(a, b) == 0 <==> x == y)
      && (Compare(a, b) == -1 <==>
            x[0] < y[0] || (x[0] == y[0] && (x[1] < y[1] || (x[1] == y[1] && x[2] < y[2]))))
  {
    NotLatest(a);
    NotLatest(b);
    var x, y := Parse(a).components, Parse(b).components;
    TripleCompare(x, y);
    assert a != b ==> Compare(a, b) == LexCompare(x, y);
  }

  /** Two timestamps compare by their integer values. */
  lemma TimestampOrder(a: string, b: string)
    requires IsTimestamp(a) && IsTimestamp(b)
    ensures Compare(a, b) == (if Value(a) < Value(b) then -1 else if Value(a) == Value(b) then 0 else 1)
  {
    NotLatest(a);
    NotLatest(b);
    var x, y := [Value(a)], [Value(b)];
    assert x[1..] == [] && y[1..] == [];
  }

  /** Two different custom tags, neither `"latest"`, are equal: both have no components. */
  lemma CustomTagsEqual(a: string, b: string)
    requires !IsSemver(a) && !IsTimestamp(a) && !IsSemver(b) && !IsTimestamp(b)
    requires a != "latest" && b != "latest"
    ensures Compare(a, b) == 0
  {
  }

  /** A custom tag against a semantic version or a timestamp: code-point order of the raw strings. */
  lemma MixedKindStringOrder(a: string, b: string)
    requires a != "latest" && b != "latest" && a != b
    requires Parse(a).kind != Parse(b).kind
    requires Parse(a).kind == Custom || Parse(b).kind == Custom
    ensures Compare(a, b) == -1 <==> StrLess(a, b)
    ensures Compare(a, b) == 1 <==> StrLess(b, a)
    ensures Compare(a, b) != 0
  {
  }

  lemma CycleShapes(a: string, b: string)
    requires a == "9.0.0" && b == "1"
    ensures a == Render("", 9, 0, 0) && IsTimestamp(b)
  {
  }

  lemma FiveXIsCustom(c: string)
    requires c == "5x"
    ensures !IsSemver(c) && !IsTimestamp(c) && c != "latest"
  {
    assert DigitRun(c) == 1 by {
      assert DigitRun(c[1..]) == 0;
    }
    assert |c| != |"latest"|;
  }

  lemma CycleStringOrder(a: string, b: string, c: string)
    requires a == "9.0.0" && b == "1" && c == "5x"
    ensures StrLess(b, c) && StrLess(c, a)
  {
  }

  /** The relation is not transitive: "9.0.0" < "1" < "5x" < "9.0.0". */
  lemma CompareNotTransitive(a: string, b: string, c: string)
    requires a == "9.0.0" && b == "1" && c == "5x"
    ensures Compare(a, b) == -1
    ensures Compare(b, c) == -1
    ensures Compare(c, a) == -1
  {
    CycleShapes(a, b);
    SemverRoundTrip("", 9, 0, 0);
    FiveXIsCustom(c);
    CycleStringOrder(a, b, c);
    SemverOlderThanTimestamp(a, b);
    NotLatest(a);
    NotLatest(b);
    MixedKindStringOrder(b, c);
    MixedKindStringOrder(c, a);
  }

  // ---------------------------------------------------------------------
  // Tags of the semantic-version shape
  // ---------------------------------------------------------------------

  /** One `\d+\.` step of the match: the digits of `d`, then the dot, then `t`. */
  lemma DigitsThenDot(d: string, t: string)
    requires d != [] && AllDigits(d)
    ensures var u := d + ("." + t);
      DigitRun(u) == |d| && |d| < |u| && u[|d|] == '.' && u[|d| + 1..] == t && u[..|d|] == d
  {
    DigitRunAppend(d, "." + t);
    assert DigitRun("." + t) == 0;
    assert (d + ("." + t))[|d| + 1..] == t;
  }

  /** `MatchTriple` in terms of where its three digit runs end. */
  lemma MatchTripleOf(t: string, t2: string, t3: string)
    requires 0 < DigitRun(t) < |t| && t[DigitRun(t)] == '.' && t[DigitRun(t) + 1..] == t2
    requires 0 < DigitRun(t2) < |t2| && t2[DigitRun(t2)] == '.' && t2[DigitRun(t2) + 1..] == t3
    requires DigitRun(t3) > 0
    ensures MatchTriple(t) == Some([Value(t[..DigitRun(t)]), Value(t2[..DigitRun(t2)]), Value(t3[..DigitRun(t3)])])
  {
  }

  /** The third group: a non-empty run of digits starting at D3. */
  lemma ThirdGroup(d3: string, rest: string)
    requires d3 != [] && AllDigits(d3)
    ensures var t3 := d3 + rest; DigitRun(t3) > 0 && AllDigits(t3[..DigitRun(t3)])
  {
    var t3 := d3 + rest;
    DigitRunAppend(d3, rest);
    var n3 := DigitRun(t3);
    forall k | 0 <= k < n3 ensures IsDigit(t3[..n3][k]) {
      assert t3[..n3][k] == t3[k];
    }
  }

  /** `MatchTriple` on `D1.D2.D3rest`: the three groups are D1, D2 and the digit run starting at D3. */
  lemma MatchTripleShape(d1: string, d2: string, d3: string, rest: string)
    requires d1 != [] && d2 != [] && d3 != [] && AllDigits(d1) && AllDigits(d2) && AllDigits(d3)
    ensures var t3 := d3 + rest;
      AllDigits(t3[..DigitRun(t3)]) &&
      MatchTriple(d1 + ("." + (d2 + ("." + t3)))) == Some([Value(d1), Value(d2), Value(t3[..DigitRun(t3)])])
  {
    var t3 := d3 + rest;
    var t2 := d2 + ("." + t3);
    var t := d1 + ("." + t2);
    DigitsThenDot(d1, t2);
    DigitsThenDot(d2, t3);
    ThirdGroup(d3, rest);
    MatchTripleOf(t, t2, t3);
  }

  /**
    A tag `[v]D1.D2.D3rest` (D1, D2, D3 runs of digits, anything after) is a
    semantic version whose components are int(D1), int(D2) and the integer of
    the whole digit run that starts at D3; when `rest` does not start with a
    digit, that is int(D3).
  */
  lemma SemverShape(v: string, d1: string, d2: string, d3: string, rest: string)
    requires v == "" || v == "v"
    requires d1 != [] && d2 != [] && d3 != [] && AllDigits(d1) && AllDigits(d2) && AllDigits(d3)
    ensures var s := v + (d1 + ("." + (d2 + ("." + (d3 + rest)))));
      && Parse(s).kind == Semver
      && Parse(s).components[0] == Value(d1)
      && Parse(s).components[1] == Value(d2)
      && (rest == [] || !IsDigit(rest[0]) ==> Parse(s).components == [Value(d1), Value(d2), Value(d3)])
  {
    var t3 := d3 + rest;
    MatchTripleShape(d1, d2, d3, rest);
    ParseSemver(v, d1 + ("." + (d2 + ("." + t3))));
    if rest == [] || !IsDigit(rest[0]) {
      DigitRunAppend(d3, rest);
      assert t3[..DigitRun(t3)] == d3;
    }
  }

  /** An optional `v` followed by a successful triple match parses to that triple. */
  lemma ParseSemver(v: string, t: string)
    requires v == "" || v == "v"
    requires MatchTriple(t).Some?
    ensures Parse(v + t) == Version(Semver, MatchTriple(t).value, v + t)
  {
    if v == "v" {
      VPrefix(t);
      ParseAfterStrip("v" + t, t);
    } else {
      assert v + t == t;
      ParseBare(t);
    }
  }

  lemma ParseBare(t: string)
    requires MatchTriple(t).Some?
    ensures Parse(t) == Version(Semver, MatchTriple(t).value, t)
  {
    NoLeadingV(t);
    ParseAfterStrip(t, t);
  }

  lemma VPrefix(t: string)
    requires MatchTriple(t).Some?
    ensures IsSemver("v" + t) && LStripV("v" + t) == t
  {
    var s := "v" + t;
    assert s[0] == 'v' && s[1..] == t;
    MatchTripleSome(t);
    NoLeadingV(t);
    LStripVStep(s);
  }

  lemma NoLeadingV(t: string)
    requires t != [] && t[0] != 'v'
    ensures LStripV(t) == t
  {
  }

  lemma LStripVStep(s: string)
    requires s != [] && s[0] == 'v'
    ensures LStripV(s) == LStripV(s[1..])
  {
  }

  lemma ParseAfterStrip(s: string, t: string)
    requires MatchTriple(t).Some? && IsSemver(s) && LStripV(s) == t
    ensures Parse(s) == Version(Semver, MatchTriple(t).value, s)
  {
  }

  /** The canonical rendering `[v]major.minor.patch` of a triple. */
  function Render(v: string, major: nat, minor: nat, patch: nat): string
  {
    v + (Digits(major) + ("." + (Digits(minor) + ("." + Digits(patch)))))
  }

  /** The canonical rendering of a triple parses back to that triple, with or without a leading `v`. */
  lemma SemverRoundTrip(v: string, major: nat, minor: nat, patch: nat)
    requires v == "" || v == "v"
    ensures Parse(Render(v, major, minor, patch)) == Version(Semver, [major, minor, patch], Render(v, major, minor, patch))
  {
    var d3 := Digits(patch);
    MatchTripleShape(Digits(major), Digits(minor), d3, "");
    assert d3 + "" == d3;
    DigitRunAll(d3);
    assert d3[..|d3|] == d3;
    ParseSemver(v, Digits(major) + ("." + (Digits(minor) + ("." + d3))));
    ValueDigits(major);
    ValueDigits(minor);
    ValueDigits(patch);
  }

  /** The canonical rendering of a number is a timestamp of that value. */
  lemma TimestampRoundTrip(n: nat)
    ensures Parse(Digits(n)) == Version(Timestamp, [n], Digits(n))
  {
    ValueDigits(n);
  }

  /** A leading `v` and any suffix after the patch number do not change the ordering. */
  lemma PrefixAndSuffixIgnored(d1: string, d2: string, d3: string, suffix: string)
    requires d1 != [] && d2 != [] && d3 != [] && AllDigits(d1) && AllDigits(d2) && AllDigits(d3)
    requires suffix == [] || !IsDigit(suffix[0])
    ensures Compare("v" + (d1 + ("." + (d2 + ("." + (d3 + suffix))))), d1 + ("." + (d2 + ("." + d3)))) == 0
  {
    var a := "v" + (d1 + ("." + (d2 + ("." + (d3 + suffix)))));
    var b := d1 + ("." + (d2 + ("." + d3)));
    SemverShape("v", d1, d2, d3, suffix);
    SemverNoSuffix(d1, d2, d3);
    SemverOrder(a, b);
  }

  /** `SemverShape` without a prefix or suffix. */
  lemma SemverNoSuffix(d1: string, d2: string, d3: string)
    requires d1 != [] && d2 != [] && d3 != [] && AllDigits(d1) && AllDigits(d2) && AllDigits(d3)
    ensures var b := d1 + ("." + (d2 + ("." + d3)));
      Parse(b).kind == Semver && Parse(b).components == [Value(d1), Value(d2), Value(d3)]
  {
    var b := d1 + ("." + (d2 + ("." + d3)));
    SemverShape("", d1, d2, d3, "");
    assert d3 + "" == d3;
    assert "" + b == b;
  }
}
