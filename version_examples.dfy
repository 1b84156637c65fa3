/**
  The version parser's documented cases: which tags are semantic versions or
  timestamps, and how pairs of them compare. Each case fixes its tags through
  a precondition and is proved from the general lemmas of `Version`.
*/
module VersionExamples {
  import opened Wrappers
  import opened Text
  import opened Version

  lemma RenderedAs(s: string, v: string, major: nat, minor: nat, patch: nat)
    requires v == "" || v == "v"
    requires s == Render(v, major, minor, patch)
    ensures IsSemver(s) && !IsTimestamp(s)
    ensures Parse(s) == Version(Semver, [major, minor, patch], s)
  {
    SemverRoundTrip(v, major, minor, patch);
    ParseKindsConsistent(s);
  }

  lemma Render123(s: string, t: string)
    requires s == "1.2.3" && t == "v1.2.3"
    ensures s == Render("", 1, 2, 3) && t == Render("v", 1, 2, 3)
  {
  }

  /** "1.2.3" and "v1.2.3" are semantic versions, not timestamps, and parse to the same triple. */
  lemma SemverDetection(s: string, t: string)
    requires s == "1.2.3" && t == "v1.2.3"
    ensures IsSemver(s) && IsSemver(t) && !IsTimestamp(s) && !IsTimestamp(t)
    ensures Parse(s).components == Parse(t).components == [1, 2, 3]
  {
    Render123(s, t);
    RenderedAs(s, "", 1, 2, 3);
    RenderedAs(t, "v", 1, 2, 3);
  }

  /** "1746190043" is a timestamp and not a semantic version; "latest" and "" are custom tags. */
  lemma TimestampDetection(s: string)
    requires s == "1746190043"
    ensures IsTimestamp(s) && !IsSemver(s)
    ensures !IsTimestamp("latest") && !IsSemver("latest")
    ensures Parse("") == Version(Custom, [], "")
  {
    DigitsNotSemver(s);
    LatestIsCustom();
  }

  lemma Render124(a: string, b: string)
    requires a == "1.2.3" && b == "1.2.4"
    ensures a == Render("", 1, 2, 3) && b == Render("", 1, 2, 4)
  {
  }

  lemma Render200(a: string, b: string)
    requires a == "2.0.0" && b == "1.9.9"
    ensures a == Render("", 2, 0, 0) && b == Render("", 1, 9, 9)
  {
  }

  /** Semantic versions compare by their numbers, and a leading `v` is ignored. */
  lemma CompareSemverCases(a: string, b: string, c: string, d: string, e: string)
    requires a == "1.2.3" && b == "1.2.4" && c == "2.0.0" && d == "1.9.9" && e == "v1.2.3"
    ensures Compare(a, b) == -1
    ensures Compare(c, d) == 1
    ensures Compare(a, a) == 0
    ensures Compare(e, a) == 0
  {
    Render124(a, b);
    RenderedAs(a, "", 1, 2, 3);
    RenderedAs(b, "", 1, 2, 4);
    SemverOrder(a, b);
    Render200(c, d);
    RenderedAs(c, "", 2, 0, 0);
    RenderedAs(d, "", 1, 9, 9);
    SemverOrder(d, c);
    CompareAntisymmetric(c, d);
    Render123(a, e);
    RenderedAs(e, "v", 1, 2, 3);
    SemverOrder(e, a);
  }

  lemma ThousandValues(a: string, b: string)
    requires a == "1000" && b == "2000"
    ensures IsTimestamp(a) && IsTimestamp(b)
    ensures a == Digits(1000) && b == Digits(2000)
  {
  }

  /** Timestamps compare by their integer values. */
  lemma CompareTimestampCases(a: string, b: string)
    requires a == "1000" && b == "2000"
    ensures Compare(a, b) == -1
    ensures Compare(b, a) == 1
    ensures Compare(a, a) == 0
  {
    ThousandValues(a, b);
    ValueDigits(1000);
    ValueDigits(2000);
    TimestampOrder(a, b);
    TimestampOrder(b, a);
  }

  /** "latest" is newer than "1.2.3" and equal to itself. */
  lemma CompareLatestCases(a: string)
    requires a == "1.2.3"
    ensures Compare(a, "latest") == -1
    ensures Compare("latest", a) == 1
    ensures Compare("latest", "latest") == 0
  {
    Render123(a, "v1.2.3");
    RenderedAs(a, "", 1, 2, 3);
    NotLatest(a);
    LatestDominates(a);
  }

  lemma MixedPieces(a: string, b: string)
    requires a == "1.0.0" && b == "1746190043"
    ensures a == Render("", 1, 0, 0) && IsTimestamp(b)
  {
  }

  /** A semantic version is older than a timestamp, in both argument orders. */
  lemma CompareMixedCases(a: string, b: string)
    requires a == "1.0.0" && b == "1746190043"
    ensures Compare(a, b) == -1
    ensures Compare(b, a) == 1
  {
    MixedPieces(a, b);
    RenderedAs(a, "", 1, 0, 0);
    SemverOlderThanTimestamp(a, b);
  }

  lemma AbcIsCustom(c: string)
    requires c == "abc"
    ensures !IsSemver(c) && !IsTimestamp(c) && c != "latest"
  {
    assert DigitRun(c) == 0;
    assert !IsDigit(c[0]);
  }

  lemma AbcOrder(a: string, b: string, c: string)
    requires a == "1.2.3" && b == "v1.2.3" && c == "abc"
    ensures StrLess(a, c) && StrLess(c, b) && a != c && b != c
  {
  }

  /**
    The leading `v` matters against a custom tag: "1.2.3" is below "abc" but
    "v1.2.3" is above it, because that comparison falls back to the raw strings.
  */
  lemma VPrefixAgainstCustom(a: string, b: string, c: string)
    requires a == "1.2.3" && b == "v1.2.3" && c == "abc"
    ensures Compare(a, b) == 0
    ensures Compare(a, c) == -1
    ensures Compare(b, c) == 1
  {
    Render123(a, b);
    RenderedAs(a, "", 1, 2, 3);
    RenderedAs(b, "v", 1, 2, 3);
    SemverOrder(a, b);
    AbcIsCustom(c);
    AbcOrder(a, b, c);
    NotLatest(a);
    NotLatest(b);
    MixedKindStringOrder(a, c);
    MixedKindStringOrder(b, c);
  }
}
