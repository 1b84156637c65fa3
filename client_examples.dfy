/**
  Concrete references through the sanitiser: the client's own defaults, the
  references of the sanitiser's demonstration list, and the end-of-string
  corner of the domain check. Each example fixes its input through a
  precondition and is proved from the general lemmas of `Client` step by
  step, one small fact per helper.

  The many one-line lemmas without doc comments (`KeepsUbuntu`,
  `DropsSemicolon`, ...) each fix one fact about a string literal, such as
  what a filter keeps of it or how it splits. They are kept apart because
  the verifier unfolds a literal character by character: a fact proved on
  its own stays small, and the example that uses it only combines results.
*/
module ClientExamples {
  import opened Wrappers
  import opened Text
  import opened Client

  // ---------------------------------------------------------------------
  // The client's own references
  // ---------------------------------------------------------------------

  /** A fresh client has no repository, which `%s` renders as "None": its reference is "None:1.0.0". */
  lemma FreshClientVersion(u: string -> Option<string>, x: string)
    requires x == "None:1.0.0"
    ensures Sanitize(Some(x), u) == Some(x)
    ensures SanitizeAsWritten(Some(x), u) == Some(x)
  {
    assert x == "None" + ":" + "1.0.0";
    ContainerVersionOfSimpleName("None", "1.0.0", u);
  }

  lemma ExampleComIsDomain(d: string)
    requires d == "example.com"
    ensures IsSafeSegment(d) && IsDomain(d)
  {
    assert d == "example" + ['.'] + "com";
    SplitPrefix("example", '.', "com");
    SplitNoSep("com", '.');
    assert IsLabel("example") && IsLabel("com");
  }

  lemma TestRepoJoin(parts: seq<string>, x: string)
    requires parts == ["example.com", "repo", "container"]
    requires x == "example.com/repo/container:test"
    ensures Join(parts, '/') + ":" + "test" == x
  {
    var tail := parts[1..];
    assert tail == ["repo", "container"] && tail[1..] == ["container"];
    assert Join(tail, '/') == "repo" + ['/'] + "container";
    assert Join(parts, '/') == "example.com" + ['/'] + Join(tail, '/');
  }

  lemma TestRepoSafe(parts: seq<string>)
    requires parts == ["example.com", "repo", "container"]
    ensures forall i :: 1 <= i < |parts| ==> IsSafeSegment(parts[i])
  {
    assert IsSafeSegment("repo");
    assert IsSafeSegment("container");
  }

  /** The test client: repository "example.com/repo/container" at version "test" is passed through unchanged. */
  lemma TestClientVersion(u: string -> Option<string>, x: string)
    requires x == "example.com/repo/container:test"
    ensures Sanitize(Some(x), u) == Some(x)
    ensures SanitizeAsWritten(Some(x), u) == Some(x)
  {
    var parts := ["example.com", "repo", "container"];
    TestRepoJoin(parts, x);
    TestRepoSafe(parts);
    ExampleComIsDomain(parts[0]);
    ContainerVersionOfCleanPath(parts, "test", u);
  }

  lemma FreshReference(repo: Option<string>, version: string)
    requires repo == None && version == "1.0.0"
    ensures Show(repo) + ":" + version == "None:1.0.0"
  {
  }

  lemma TestReference(repo: Option<string>, version: string)
    requires repo == Some("example.com/repo/container") && version == "test"
    ensures Show(repo) + ":" + version == "example.com/repo/container:test"
  {
  }

  /** The default client and the test client, through the `container_version` property. */
  method ClientVersions(u: string -> Option<string>) returns (initial: Option<string>, configured: Option<string>)
    ensures initial == Some("None:1.0.0")
    ensures configured == Some("example.com/repo/container:test")
  {
    var c := new CtlClient();
    FreshReference(c.containerRepo, c.baselineVersion);
    initial := c.ContainerVersion(u);
    FreshClientVersion(u, "None:1.0.0");
    c.containerRepo := Some("example.com/repo/container");
    c.baselineVersion := "test";
    TestReference(c.containerRepo, c.baselineVersion);
    configured := c.ContainerVersion(u);
    TestClientVersion(u, "example.com/repo/container:test");
  }

  // ---------------------------------------------------------------------
  // An injection attempt
  // ---------------------------------------------------------------------

  lemma Filter3(a: string, p1: string, p2: string, p3: string)
    requires a == p1 + p2 + p3
    ensures Filter(a, IsPathChar) == Filter(p1, IsPathChar) + Filter(p2, IsPathChar) + Filter(p3, IsPathChar)
  {
    FilterConcat(p1 + p2, p3, IsPathChar);
    FilterConcat(p1, p2, IsPathChar);
  }

  lemma KeepsUbuntu() ensures Filter("ubuntu", IsPathChar) == "ubuntu" { }
  lemma KeepsRf() ensures Filter("-rf", IsPathChar) == "-rf" { }
  lemma DropsSemicolon() ensures Filter("; ", IsPathChar) == [] { }
  lemma DropsSpace() ensures Filter(" ", IsPathChar) == [] { }

  lemma UbuntuWord(p: string)
    requires p == "ubuntu; "
    ensures Filter(p, IsPathChar) == "ubuntu"
  {
    Filter3(p, "ubuntu", "; ", "");
    KeepsUbuntu();
    DropsSemicolon();
  }

  lemma RmWord(p: string)
    requires p == "rm "
    ensures Filter(p, IsPathChar) == "rm"
  {
  }

  lemma RfWord(p: string)
    requires p == "-rf "
    ensures Filter(p, IsPathChar) == "-rf"
  {
    Filter3(p, "-rf", " ", "");
    KeepsRf();
    DropsSpace();
  }

  lemma InjectionPieces(a: string)
    requires a == "ubuntu; rm -rf "
    ensures a == "ubuntu; " + "rm " + "-rf "
    ensures '.' !in a
  {
  }

  lemma InjectionKept()
    ensures "ubuntu" + "rm" + "-rf" == "ubunturm-rf"
  {
  }

  lemma InjectionSegment(a: string)
    requires a == "ubuntu; rm -rf "
    ensures '.' !in a
    ensures Filter(a, IsPathChar) == "ubunturm-rf"
  {
    InjectionPieces(a);
    Filter3(a, "ubuntu; ", "rm ", "-rf ");
    UbuntuWord("ubuntu; ");
    RmWord("rm ");
    RfWord("-rf ");
    InjectionKept();
  }

  lemma InjectionChars(s: string)
    requires s == "ubuntu; rm -rf /"
    ensures !IsSpace(s[0]) && !IsSpace(s[|s| - 1])
    ensures ':' !in s && '/' in s
    ensures s == "ubuntu; rm -rf " + ['/'] + ""
  {
  }

  lemma InjectionSplit(s: string)
    requires s == "ubuntu; rm -rf /"
    ensures Strip(s) == s && '/' in s && !HasSubstring(s, "://")
    ensures Split(s, '/') == ["ubuntu; rm -rf ", ""]
  {
    InjectionChars(s);
    StripUnchanged(s);
    NoColonNoScheme(s);
    SplitPrefix("ubuntu; rm -rf ", '/', "");
  }

  /** A reference of one dot-free segment and a trailing `/` keeps the filtered segment only. */
  lemma KeepOneSegment(p: string, isDomain: string -> bool)
    requires '.' !in p && Filter(p, IsPathChar) != ""
    ensures KeepSegments([p, ""], [], isDomain) == Some([Filter(p, IsPathChar)])
  {
    var w := Filter(p, IsPathChar);
    assert [p, ""][1..] == [""] && [] + [w] == [w];
    assert KeepSegments([p, ""], [], isDomain) == KeepSegments([""], [w], isDomain);
    assert [""][1..] == [];
  }

  /** "ubuntu; rm -rf /" loses its `;`, its spaces and its trailing `/`: "ubunturm-rf". */
  lemma InjectionStripped(u: string -> Option<string>, s: string)
    requires s == "ubuntu; rm -rf /"
    ensures Sanitize(Some(s), u) == Some("ubunturm-rf")
    ensures SanitizeAsWritten(Some(s), u) == Some("ubunturm-rf")
  {
    InjectionSplit(s);
    InjectionSegment("ubuntu; rm -rf ");
    KeepOneSegment("ubuntu; rm -rf ", IsDomain);
    RegistryCase(s, u, IsDomain, ["ubunturm-rf"]);
    KeepOneSegment("ubuntu; rm -rf ", IsDomainAsWritten);
    RegistryCase(s, u, IsDomainAsWritten, ["ubunturm-rf"]);
  }

  // ---------------------------------------------------------------------
  // Sanitising twice is not sanitising once
  // ---------------------------------------------------------------------

  lemma AtChars(a: string)
    requires a == "foo@bar"
    ensures '.' !in a && ':' !in a && '/' !in a
    ensures Filter(a, IsPathChar) == a
    ensures a == "foo" + "@" + "bar"
  {
    assert a == "foo" + "@" + "bar";
    AtPathFilter(a);
  }

  lemma KeepsAtInPath() ensures Filter("@", IsPathChar) == "@" { }
  lemma FooInPath() ensures Filter("foo", IsPathChar) == "foo" { }
  lemma BarInPath() ensures Filter("bar", IsPathChar) == "bar" { }

  lemma AtPathFilter(a: string)
    requires a == "foo" + "@" + "bar"
    ensures Filter(a, IsPathChar) == a
  {
    FilterConcat("foo" + "@", "bar", IsPathChar);
    FilterConcat("foo", "@", IsPathChar);
    KeepsAtInPath();
    FooInPath();
    BarInPath();
  }

  lemma DropsAt() ensures Filter("@", IsNameChar) == [] { }
  lemma KeepsFoo() ensures Filter("foo", IsNameChar) == "foo" { }
  lemma KeepsBar() ensures Filter("bar", IsNameChar) == "bar" { }
  lemma FooBar() ensures "foo" + [] + "bar" == "foobar" { }

  lemma AtNameFilter(a: string)
    requires a == "foo" + "@" + "bar"
    ensures Filter(a, IsNameChar) == "foobar"
  {
    FilterConcat("foo" + "@", "bar", IsNameChar);
    FilterConcat("foo", "@", IsNameChar);
    DropsAt();
    KeepsFoo();
    KeepsBar();
    FooBar();
  }

  lemma SlashAfter(a: string, b: string)
    requires a == "foo@bar/" && b == "foo@bar"
    ensures a == b + ['/'] + ""
    ensures !IsSpace(a[0]) && !IsSpace(a[|a| - 1]) && ':' !in a
  {
  }

  /** The registry half: "foo@bar/" sanitises to "foo@bar". */
  lemma AtKeptInPath(u: string -> Option<string>, a: string, b: string)
    requires a == "foo@bar/" && b == "foo@bar"
    ensures Sanitize(Some(a), u) == Some(b)
    ensures SanitizeAsWritten(Some(a), u) == Some(b)
  {
    AtChars(b);
    SlashAfter(a, b);
    StripUnchanged(a);
    NoColonNoScheme(a);
    SplitPrefix(b, '/', "");
    KeepOneSegment(b, IsDomain);
    RegistryCase(a, u, IsDomain, [b]);
    KeepOneSegment(b, IsDomainAsWritten);
    RegistryCase(a, u, IsDomainAsWritten, [b]);
  }

  /** The simple half: "foo@bar" sanitises to "foobar". */
  lemma AtDroppedInName(u: string -> Option<string>, b: string)
    requires b == "foo@bar"
    ensures Sanitize(Some(b), u) == Some("foobar")
    ensures SanitizeAsWritten(Some(b), u) == Some("foobar")
  {
    AtChars(b);
    AtNameFilter(b);
    StripUnchanged(b);
    SplitNoSep(b, ':');
    SimpleCase(b, u, IsDomain);
    SimpleCase(b, u, IsDomainAsWritten);
  }

  /**
    The registry branch keeps `@`, the simple branch drops it: "foo@bar/"
    sanitises to "foo@bar", which sanitises to "foobar".
  */
  lemma NotIdempotent(u: string -> Option<string>, a: string, b: string)
    requires a == "foo@bar/" && b == "foo@bar"
    ensures Sanitize(Some(a), u) == Some(b)
    ensures Sanitize(Sanitize(Some(a), u), u) == Some("foobar")
    ensures Sanitize(Sanitize(Some(a), u), u) != Sanitize(Some(a), u)
    ensures SanitizeAsWritten(Some(a), u) == Some(b)
    ensures SanitizeAsWritten(SanitizeAsWritten(Some(a), u), u) == Some("foobar")
  {
    AtKeptInPath(u, a, b);
    AtDroppedInName(u, b);
    AtChars(b);
  }

  // ---------------------------------------------------------------------
  // The simple-name branch
  // ---------------------------------------------------------------------

  /** "ubuntu:20.04" is a simple reference and comes back unchanged. */
  lemma TaggedNameKept(u: string -> Option<string>, x: string)
    requires x == "ubuntu:20.04"
    ensures Sanitize(Some(x), u) == Some(x)
    ensures SanitizeAsWritten(Some(x), u) == Some(x)
  {
    assert x == "ubuntu" + ":" + "20.04";
    ContainerVersionOfSimpleName("ubuntu", "20.04", u);
  }

  lemma BangTag(x: string)
    requires x == "ubuntu:!!"
    ensures x == "ubuntu" + ":" + "!!"
    ensures !IsSpace(x[0]) && !IsSpace(x[|x| - 1]) && '/' !in x
    ensures ':' !in "ubuntu" && ':' !in "!!"
  {
  }

  lemma KeepsUbuntuName() ensures Filter("ubuntu", IsNameChar) == "ubuntu" { }
  lemma DropsBangs() ensures Filter("!!", IsNameChar) == [] { }

  /** A tag that sanitises to nothing falls back to the bare name: "ubuntu:!!" gives "ubuntu". */
  lemma EmptyTagFallsBack(u: string -> Option<string>, x: string)
    requires x == "ubuntu:!!"
    ensures Sanitize(Some(x), u) == Some("ubuntu")
    ensures SanitizeAsWritten(Some(x), u) == Some("ubuntu")
  {
    BangTag(x);
    SplitNoSep("!!", ':');
    KeepsUbuntuName();
    DropsBangs();
    TagFallback("ubuntu", "!!");
    StripUnchanged(x);
    SimpleCase(x, u, IsDomain);
    SimpleCase(x, u, IsDomainAsWritten);
  }

  lemma ColonLatest(x: string)
    requires x == ":latest"
    ensures x == "" + ":" + "latest"
    ensures !IsSpace(x[0]) && !IsSpace(x[|x| - 1]) && '/' !in x
  {
  }

  /** A name that sanitises to nothing rejects: ":latest" gives `None`. */
  lemma EmptyNameRejected(u: string -> Option<string>, x: string)
    requires x == ":latest"
    ensures Sanitize(Some(x), u) == None
    ensures SanitizeAsWritten(Some(x), u) == None
  {
    ColonLatest(x);
    TagFallback("", "latest");
    StripUnchanged(x);
    SimpleCase(x, u, IsDomain);
    SimpleCase(x, u, IsDomainAsWritten);
  }

  lemma ThreeParts(x: string, y: string)
    requires x == "a:b:c" && y == "a:b"
    ensures x == "a" + ":" + "b" + ":" + "c" && y == "a" + ":" + "b"
    ensures !IsSpace(x[0]) && !IsSpace(x[|x| - 1]) && '/' !in x
  {
  }

  /** Everything after a second `:` is dropped: "a:b:c" gives "a:b". */
  lemma SecondTagDropped(u: string -> Option<string>, x: string)
    requires x == "a:b:c"
    ensures Sanitize(Some(x), u) == Some("a:b")
    ensures SanitizeAsWritten(Some(x), u) == Some("a:b")
  {
    var y := "a:b";
    ThreeParts(x, y);
    SecondColonDiscarded("a", "b", "c");
    ContainerVersionOfSimpleName("a", "b", u);
    StripUnchanged(x);
    SimpleCase(x, u, IsDomain);
    SimpleCase(x, u, IsDomainAsWritten);
    StripUnchanged(y);
    SimpleCase(y, u, IsDomain);
    SimpleCase(y, u, IsDomainAsWritten);
  }

  // ---------------------------------------------------------------------
  // A domain followed by a newline: as written and corrected
  // ---------------------------------------------------------------------

  lemma NewlineChars(s: string)
    requires s == "evil.com\n/x"
    ensures !IsSpace(s[0]) && !IsSpace(s[|s| - 1]) && ':' !in s && '/' in s
    ensures s == "evil.com\n" + ['/'] + "x"
  {
  }

  lemma JoinTwo(a: string, b: string)
    ensures Join([a, b], '/') == a + ['/'] + b
  {
    assert [a, b][1..] == [b];
  }

  lemma NewlineSplit(s: string)
    requires s == "evil.com\n/x"
    ensures Strip(s) == s && '/' in s && !HasSubstring(s, "://")
    ensures Split(s, '/') == ["evil.com\n", "x"]
    ensures Join(["evil.com\n", "x"], '/') == s
  {
    NewlineChars(s);
    StripUnchanged(s);
    NoColonNoScheme(s);
    TwoSegments(s, "evil.com\n", "x");
  }

  /** Two slash-free segments joined by a slash split back into those two. */
  lemma TwoSegments(s: string, d: string, x: string)
    requires s == d + ['/'] + x && '/' !in d && '/' !in x
    ensures Split(s, '/') == [d, x] && Join([d, x], '/') == s
  {
    SplitPrefix(d, '/', x);
    SplitNoSep(x, '/');
    JoinTwo(d, x);
  }

  lemma EvilLabels() ensures IsLabel("evil") && IsLabel("com") && !IsLabel("com\n") { }

  lemma NewlinePieces(d: string)
    requires d == "evil.com\n"
    ensures '.' in d && d != [] && d[|d| - 1] == '\n'
    ensures d[..|d| - 1] == "evil" + ['.'] + "com"
    ensures d == "evil" + ['.'] + "com\n"
  {
  }

  lemma NewlineDomain(d: string)
    requires d == "evil.com\n"
    ensures '.' in d
    ensures IsDomainAsWritten(d)
    ensures !IsDomain(d)
  {
    NewlinePieces(d);
    EvilLabels();
    SplitPrefix("evil", '.', "com");
    SplitNoSep("com", '.');
    SplitPrefix("evil", '.', "com\n");
    SplitNoSep("com\n", '.');
    assert Split(d, '.')[1] == "com\n";
  }

  /** After a kept first segment, a dot-free segment of path characters is kept as it is. */
  lemma KeepDomainThenName(d: string, p: string, isDomain: string -> bool)
    requires '.' in d && isDomain(d)
    requires forall k :: 0 <= k < |p| ==> IsPathChar(p[k])
    requires p != ""
    ensures KeepSegments([d, p], [], isDomain) == Some([d, p])
  {
    assert [d, p][1..] == [p] && [] + [d] == [d] && [d] + [p] == [d, p];
    assert KeepSegments([d, p], [], isDomain) == KeepSegments([p], [d], isDomain);
    assert Filter(p, IsPathChar) == p;
    assert [p][1..] == [];
    assert KeepSegments([p], [d], isDomain) == KeepSegments([], [d, p], isDomain);
  }

  /** A domain that fails the check rejects the reference outright. */
  lemma RejectFirstDomain(d: string, p: string, isDomain: string -> bool)
    requires '.' in d && !isDomain(d)
    ensures KeepSegments([d, p], [], isDomain) == None
  {
  }

  lemma PathWord(p: string)
    requires p == "x"
    ensures p != "" && forall k :: 0 <= k < |p| ==> IsPathChar(p[k])
  {
  }

  /** As written, "evil.com\n/x" passes the domain check and is kept verbatim, newline included. */
  lemma NewlineSurvivesAsWritten(u: string -> Option<string>, s: string)
    requires s == "evil.com\n/x"
    ensures SanitizeAsWritten(Some(s), u) == Some(s)
    ensures '\n' in s
  {
    var d, p := "evil.com\n", "x";
    NewlineSplit(s);
    NewlineDomain(d);
    PathWord(p);
    KeepDomainThenName(d, p, IsDomainAsWritten);
    RegistryCase(s, u, IsDomainAsWritten, [d, p]);
    NewlineChars(s);
  }

  /** With the domain check anchored at the very end, the same reference is rejected. */
  lemma NewlineRejected(u: string -> Option<string>, s: string)
    requires s == "evil.com\n/x"
    ensures Sanitize(Some(s), u) == None
  {
    NewlineSplit(s);
    NewlineDomain("evil.com\n");
    RejectFirstDomain("evil.com\n", "x", IsDomain);
  }
}
