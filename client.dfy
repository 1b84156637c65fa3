/**
  `CtlClient` (rapidctl/bootstrap/client.py): the client's settings, the
  image reference it derives from them, and the sanitiser that every image
  reference passes through before it reaches the container runtime.
*/
module Client {
  import opened Wrappers
  import opened Text

  // ---------------------------------------------------------------------
  // Character classes of the sanitiser's regular expressions
  // ---------------------------------------------------------------------

  /** `[a-zA-Z0-9._-]`: what a simple `name[:tag]` keeps. */
  predicate IsNameChar(c: char) { IsAlnum(c) || c == '.' || c == '_' || c == '-' }

  /** `[a-zA-Z0-9._:@-]`: what a registry path segment keeps. */
  predicate IsPathChar(c: char) { IsNameChar(c) || c == ':' || c == '@' }

  /** `[a-zA-Z0-9\:\-]`: the inner characters of a domain label. */
  predicate IsLabelChar(c: char) { IsAlnum(c) || c == ':' || c == '-' }

  /** One label of the domain pattern: `[a-zA-Z0-9]([a-zA-Z0-9\:\-]{0,61}[a-zA-Z0-9])?`. */
  predicate IsLabel(l: string)
  {
    1 <= |l| <= 63 && IsAlnum(l[0]) && IsAlnum(l[|l| - 1])
    && forall k :: 0 <= k < |l| ==> IsLabelChar(l[k])
  }

  /**
    The whole segment is `label(\.label)*`. Labels contain no dot, so this
    holds exactly when every dot-separated piece is a label.
  */
  predicate IsDomain(s: string)
  {
    forall i :: 0 <= i < |Split(s, '.')| ==> IsLabel(Split(s, '.')[i])
  }

  /**
    What `re.match(r'^label(\.label)*$', s)` accepts: Python's `$` also
    matches just before a newline that ends the string, so a domain followed
    by one trailing newline passes too.
  */
  predicate IsDomainAsWritten(s: string)
  {
    IsDomain(s) || (s != [] && s[|s| - 1] == '\n' && IsDomain(s[..|s| - 1]))
  }

  // ---------------------------------------------------------------------
  // The sanitiser
  // ---------------------------------------------------------------------

  /**
    The `for part in parts` loop of the registry branch, from the state where
    `kept` holds the segments appended so far: while nothing has been kept, a
    segment containing a dot must be a domain (kept verbatim) or the whole
    reference is rejected; every other segment keeps its path characters and
    is dropped when nothing is left.
  */
  function KeepSegments(parts: seq<string>, kept: seq<string>, isDomain: string -> bool): Option<seq<string>>
    decreases |parts|
  {
    if parts == [] then Some(kept)
    else if kept == [] && '.' in parts[0] then
      if isDomain(parts[0]) then KeepSegments(parts[1..], kept + [parts[0]], isDomain) else None
    else
      var safe := Filter(parts[0], IsPathChar);
      KeepSegments(parts[1..], if safe != "" then kept + [safe] else kept, isDomain)
  }

  /** The simple-name branch: `name[:tag]` split at `:`, each part reduced to its name characters. */
  function SimpleName(s: string): Option<string>
  {
    var parts := Split(s, ':');
    var name := Filter(parts[0], IsNameChar);
    var tag := if |parts| > 1 then Filter(parts[1], IsNameChar) else "";
    if |parts| > 1 && name != "" && tag != "" then Some(name + ":" + tag)
    else if name != "" then Some(name)
    else None
  }

  /**
    `_container_validator` with the domain check given as `isDomain`. `None`
    stands for both `None` and a value that is not a string. `parseUrl` is
    the result of the `://` branch, which rests on `urllib.parse.urlparse`
    and is not modelled.
  */
  function SanitizeWith(image: Option<string>, parseUrl: string -> Option<string>, isDomain: string -> bool): Option<string>
  {
    if image.None? || image.value == "" then None
    else
      var s := Strip(image.value);
      if '/' in s then
        if HasSubstring(s, "://") then parseUrl(s)
        else
          match KeepSegments(Split(s, '/'), [], isDomain)
          case None => None
          case Some(safe) => if safe != [] then Some(Join(safe, '/')) else None
      else SimpleName(s)
  }

  /** The sanitiser exactly as written, with the lenient end-of-string match of the domain check. */
  function SanitizeAsWritten(image: Option<string>, parseUrl: string -> Option<string>): Option<string>
  {
    SanitizeWith(image, parseUrl, IsDomainAsWritten)
  }

  /** The sanitiser with the domain check anchored at the very end of the segment. */
  function Sanitize(image: Option<string>, parseUrl: string -> Option<string>): Option<string>
  {
    SanitizeWith(image, parseUrl, IsDomain)
  }

  /** Which branch is taken: the registry branch. */
  lemma RegistryCase(x: string, u: string -> Option<string>, isDomain: string -> bool, safe: seq<string>)
    requires x != "" && '/' in Strip(x) && !HasSubstring(Strip(x), "://")
    requires KeepSegments(Split(Strip(x), '/'), [], isDomain) == Some(safe)
    ensures SanitizeWith(Some(x), u, isDomain) == if safe != [] then Some(Join(safe, '/')) else None
  {
  }

  /** Which branch is taken: the simple-name branch. */
  lemma SimpleCase(x: string, u: string -> Option<string>, isDomain: string -> bool)
    requires x != "" && '/' !in Strip(x)
    ensures SanitizeWith(Some(x), u, isDomain) == SimpleName(Strip(x))
  {
  }

  /** No kept segment contains `/`: pieces of a split never do, and `/` is not a path character. */
  lemma {:induction false} KeptNoSlash(parts: seq<string>, kept: seq<string>, isDomain: string -> bool)
    requires forall i :: 0 <= i < |parts| ==> '/' !in parts[i]
    requires forall i :: 0 <= i < |kept| ==> '/' !in kept[i]
    ensures var r := KeepSegments(parts, kept, isDomain);
      r.Some? ==> forall i :: 0 <= i < |r.value| ==> '/' !in r.value[i]
    decreases |parts|
  {
    if parts != [] {
      assert forall i :: 0 <= i < |parts[1..]| ==> parts[1..][i] == parts[i + 1];
      if kept == [] && '.' in parts[0] {
        if isDomain(parts[0]) {
          KeptNoSlash(parts[1..], kept + [parts[0]], isDomain);
        }
      } else {
        var safe := Filter(parts[0], IsPathChar);
        assert '/' !in safe by {
          forall k | 0 <= k < |safe| ensures safe[k] != '/' { assert IsPathChar(safe[k]); }
        }
        KeptNoSlash(parts[1..], if safe != "" then kept + [safe] else kept, isDomain);
      }
    }
  }

  /**
    The registry branch rejects exactly when the loop rejects or keeps
    nothing; otherwise the result splits at `/` into the kept segments.
  */
  lemma RegistryBranch(x: string, u: string -> Option<string>, isDomain: string -> bool)
    requires '/' in Strip(x) && !HasSubstring(Strip(x), "://")
    ensures var kept := KeepSegments(Split(Strip(x), '/'), [], isDomain);
      var r := SanitizeWith(Some(x), u, isDomain);
      && (r.None? <==> kept.None? || kept.value == [])
      && (r.Some? ==> kept.Some? && Split(r.value, '/') == kept.value)
  {
    var parts := Split(Strip(x), '/');
    var kept := KeepSegments(parts, [], isDomain);
    KeptNoSlash(parts, [], isDomain);
    if kept.Some? && kept.value != [] {
      RegistryCase(x, u, isDomain, kept.value);
      SplitJoin(kept.value, '/');
    }
  }

  /** The registry loop gives the same result under two domain checks that agree on every segment. */
  lemma {:induction false} KeepSegmentsAgree(parts: seq<string>, kept: seq<string>, d1: string -> bool, d2: string -> bool)
    requires forall i :: 0 <= i < |parts| ==> d1(parts[i]) == d2(parts[i])
    ensures KeepSegments(parts, kept, d1) == KeepSegments(parts, kept, d2)
    decreases |parts|
  {
    if parts != [] {
      assert forall i :: 0 <= i < |parts[1..]| ==> parts[1..][i] == parts[i + 1];
      if kept == [] && '.' in parts[0] {
        assert d1(parts[0]) == d2(parts[0]);
        KeepSegmentsAgree(parts[1..], kept + [parts[0]], d1, d2);
      } else {
        var safe := Filter(parts[0], IsPathChar);
        KeepSegmentsAgree(parts[1..], if safe != "" then kept + [safe] else kept, d1, d2);
      }
    }
  }

  /** Without a newline, the domain check as written and the end-anchored one agree. */
  lemma NoNewlineDomain(p: string)
    requires '\n' !in p
    ensures IsDomainAsWritten(p) == IsDomain(p)
  {
    if p != [] {
      assert p[|p| - 1] in p;
    }
  }

  /**
    On a reference without a newline, the sanitiser as written and the
    corrected one return the same result: the correction changes nothing else.
  */
  lemma AgreeWithoutNewline(x: string, u: string -> Option<string>)
    requires '\n' !in x
    ensures Sanitize(Some(x), u) == SanitizeAsWritten(Some(x), u)
  {
    var s := Strip(x);
    StripExcludes(x, '\n');
    var parts := Split(s, '/');
    SplitExcludes(s, '/', '\n');
    forall i | 0 <= i < |parts| ensures IsDomain(parts[i]) == IsDomainAsWritten(parts[i]) {
      NoNewlineDomain(parts[i]);
    }
    KeepSegmentsAgree(parts, [], IsDomain, IsDomainAsWritten);
  }

  /** Without `/`, the domain check is never consulted: both sanitisers take the simple-name branch. */
  lemma SimpleBranchAgrees(x: string, u: string -> Option<string>)
    requires '/' !in Strip(x)
    ensures Sanitize(Some(x), u) == SanitizeAsWritten(Some(x), u)
    ensures x != "" ==> Sanitize(Some(x), u) == SimpleName(Strip(x))
  {
  }

  // ---------------------------------------------------------------------
  // The client object
  // ---------------------------------------------------------------------

  /** `"%s" % value` for an optional string: `None` prints as "None". */
  function Show(value: Option<string>): string
  {
    match value
    case None => "None"
    case Some(s) => s
  }

  class CtlClient {
    var containerRepo: Option<string>
    var baselineVersion: string
    var clientVersion: string
    var imageId: Option<string>
    var commandPath: string

    constructor ()
      ensures containerRepo == None && baselineVersion == "1.0.0" && clientVersion == "0.0.1"
      ensures imageId == None && commandPath == "/opt/rapidctl/cmd/"
    {
      containerRepo := None;
      baselineVersion := "1.0.0";
      clientVersion := "0.0.1";
      imageId := None;
      commandPath := "/opt/rapidctl/cmd/";
    }

    /** The `container_version` property: the sanitised `repo:version`. It changes no field. */
    method ContainerVersion(parseUrl: string -> Option<string>) returns (r: Option<string>)
      ensures r == SanitizeAsWritten(Some(Show(containerRepo) + ":" + baselineVersion), parseUrl)
    {
      r := ContainerValidator(Some(Show(containerRepo) + ":" + baselineVersion), parseUrl);
    }

    /** `_container_validator`, building the kept registry segments step by step, with the domain check as written. */
    method ContainerValidator(image: Option<string>, parseUrl: string -> Option<string>) returns (r: Option<string>)
      ensures r == SanitizeAsWritten(image, parseUrl)
    {
      if image.None? || image.value == "" {
        return None;
      }
      var s := Strip(image.value);
      if '/' !in s {
        return SimpleName(s);
      }
      if HasSubstring(s, "://") {
        return parseUrl(s);
      }
      var parts := Split(s, '/');
      var safeParts: seq<string> := [];
      var i := 0;
      while i < |parts|
        invariant 0 <= i <= |parts|
        invariant KeepSegments(parts, [], IsDomainAsWritten) == KeepSegments(parts[i..], safeParts, IsDomainAsWritten)
      {
        var part := parts[i];
        assert parts[i..][1..] == parts[i + 1..];
        if safeParts == [] && '.' in part {
          if IsDomainAsWritten(part) {
            safeParts := safeParts + [part];
          } else {
            return None;
          }
        } else {
          var safePart := Filter(part, IsPathChar);
          if safePart != "" {
            safeParts := safeParts + [safePart];
          }
        }
        i := i + 1;
      }
      if safeParts != [] {
        return Some(Join(safeParts, '/'));
      }
      return None;
    }
  }

  // ---------------------------------------------------------------------
  // Rejection
  // ---------------------------------------------------------------------

  /** No input, an empty string and a string of spaces are all rejected. */
  lemma RejectsEmpty(u: string -> Option<string>, spaces: string)
    requires forall k :: 0 <= k < |spaces| ==> IsSpace(spaces[k])
    ensures Sanitize(None, u) == None
    ensures Sanitize(Some(""), u) == None
    ensures Sanitize(Some(spaces), u) == None
    ensures SanitizeAsWritten(None, u) == None
    ensures SanitizeAsWritten(Some(""), u) == None
    ensures SanitizeAsWritten(Some(spaces), u) == None
  {
    AllSpacesStrip(spaces);
    assert Split("", ':') == [""];
    if spaces != [] {
      SimpleCase(spaces, u, IsDomain);
      SimpleCase(spaces, u, IsDomainAsWritten);
    }
  }

  // ---------------------------------------------------------------------
  // The simple-name branch
  // ---------------------------------------------------------------------

  /** A simple reference: `name` or `name:tag`, both non-empty and made of name characters. */
  predicate IsSimpleRef(r: string)
  {
    var ps := Split(r, ':');
    (|ps| == 1 || |ps| == 2) &&
    forall i :: 0 <= i < |ps| ==> ps[i] != [] && forall k :: 0 <= k < |ps[i]| ==> IsNameChar(ps[i][k])
  }

  lemma NameColonTag(name: string, tag: string)
    requires ':' !in name && ':' !in tag
    ensures Split(name + ":" + tag, ':') == [name, tag]
  {
    SplitPrefix(name, ':', tag);
    SplitNoSep(tag, ':');
  }

  /** What the simple-name branch returns, when it returns anything, is a simple reference. */
  lemma SimpleNameShape(s: string)
    ensures SimpleName(s).Some? ==> IsSimpleRef(SimpleName(s).value)
  {
    var parts := Split(s, ':');
    var name := Filter(parts[0], IsNameChar);
    if |parts| > 1 && name != "" && Filter(parts[1], IsNameChar) != "" {
      var tag := Filter(parts[1], IsNameChar);
      NameColonTag(name, tag);
    } else if name != "" {
      SplitNoSep(name, ':');
    }
  }

  /** A reference without `/` sanitises to nothing or to a simple reference. */
  lemma SimpleBranchShape(x: string, u: string -> Option<string>)
    requires '/' !in Strip(x)
    ensures Sanitize(Some(x), u) == None || IsSimpleRef(Sanitize(Some(x), u).value)
    ensures SanitizeAsWritten(Some(x), u) == Sanitize(Some(x), u)
  {
    SimpleNameShape(Strip(x));
    SimpleBranchAgrees(x, u);
  }

  /** An empty sanitised name rejects; an empty sanitised tag falls back to the bare name. */
  lemma TagFallback(name: string, tag: string)
    requires ':' !in name
    ensures Filter(name, IsNameChar) == "" ==> SimpleName(name + ":" + tag) == None
    ensures Filter(name, IsNameChar) != "" && Filter(Split(tag, ':')[0], IsNameChar) == "" ==>
      SimpleName(name + ":" + tag) == Some(Filter(name, IsNameChar))
  {
    SplitPrefix(name, ':', tag);
    assert name + ":" + tag == name + [':'] + tag;
  }

  /** Whatever follows a second `:` is discarded. */
  lemma SecondColonDiscarded(a: string, b: string, c: string)
    requires ':' !in a && ':' !in b
    ensures SimpleName(a + ":" + b + ":" + c) == SimpleName(a + ":" + b)
  {
    SplitPrefix(a, ':', b + ":" + c);
    SplitPrefix(b, ':', c);
    assert a + ":" + b + ":" + c == a + [':'] + (b + [':'] + c);
    NameColonTag(a, b);
  }

  /** A simple reference contains no space and no `/`, and sanitises to itself. */
  lemma SimpleRefUnchanged(r: string, u: string -> Option<string>)
    requires IsSimpleRef(r)
    ensures Sanitize(Some(r), u) == Some(r)
    ensures SanitizeAsWritten(Some(r), u) == Some(r)
  {
    SimpleRefIsSafe(r);
    StripUnchanged(r);
    SimpleCase(r, u, IsDomain);
    SimpleCase(r, u, IsDomainAsWritten);
    SimpleNameOfRef(r);
  }

  /** The simple-name branch leaves a simple reference as it is. */
  lemma SimpleNameOfRef(r: string)
    requires IsSimpleRef(r)
    ensures SimpleName(r) == Some(r)
  {
    var ps := Split(r, ':');
    JoinSplit(r, ':');
    assert Filter(ps[0], IsNameChar) == ps[0];
    if |ps| == 1 {
      assert r == ps[0];
    } else {
      assert Filter(ps[1], IsNameChar) == ps[1];
      assert r == ps[0] + ":" + ps[1];
    }
  }

  /** Sanitising the result of the simple-name branch again returns it unchanged. */
  lemma SimpleBranchIdempotent(x: string, u: string -> Option<string>)
    requires '/' !in Strip(x)
    ensures Sanitize(Some(x), u).Some? ==> Sanitize(Sanitize(Some(x), u), u) == Sanitize(Some(x), u)
    ensures SanitizeAsWritten(Some(x), u).Some? ==>
      SanitizeAsWritten(SanitizeAsWritten(Some(x), u), u) == SanitizeAsWritten(Some(x), u)
  {
    SimpleBranchShape(x, u);
    if Sanitize(Some(x), u).Some? {
      SimpleRefUnchanged(Sanitize(Some(x), u).value, u);
    }
  }

  // ---------------------------------------------------------------------
  // The registry branch
  // ---------------------------------------------------------------------

  /** A kept segment: non-empty and made of path characters only (so without `/`). */
  predicate IsSafeSegment(p: string)
  {
    p != [] && forall k :: 0 <= k < |p| ==> IsPathChar(p[k])
  }

  /** A domain is made of label characters and dots, all of them path characters. */
  lemma DomainIsSafe(s: string)
    requires IsDomain(s)
    ensures IsSafeSegment(s)
  {
    var ls := Split(s, '.');
    JoinSplit(s, '.');
    forall i, k | 0 <= i < |ls| && 0 <= k < |ls[i]| ensures IsPathChar(ls[i][k]) {
      assert IsLabel(ls[i]);
      assert IsLabelChar(ls[i][k]);
    }
    JoinChars(ls, '.', IsPathChar);
    assert IsLabel(ls[0]);
    if |ls| > 1 { assert s == ls[0] + ['.'] + Join(ls[1..], '.'); } else { assert s == ls[0]; }
  }

  /** Every segment the registry loop keeps is a safe segment. */
  lemma {:induction false} KeptSegmentsSafe(parts: seq<string>, kept: seq<string>)
    requires forall i :: 0 <= i < |kept| ==> IsSafeSegment(kept[i])
    ensures var r := KeepSegments(parts, kept, IsDomain);
      r.Some? ==> forall i :: 0 <= i < |r.value| ==> IsSafeSegment(r.value[i])
    decreases |parts|
  {
    if parts != [] {
      if kept == [] && '.' in parts[0] {
        if IsDomain(parts[0]) {
          DomainIsSafe(parts[0]);
          KeptSegmentsSafe(parts[1..], kept + [parts[0]]);
        }
      } else {
        var safe := Filter(parts[0], IsPathChar);
        KeptSegmentsSafe(parts[1..], if safe != "" then kept + [safe] else kept);
      }
    }
  }

  /**
    A safe output: non-empty, made only of path characters and `/` (so no
    space, `;`, `|`, `&`, `$`, quote, bracket or any other shell
    metacharacter), and without an empty `/`-segment.
  */
  predicate IsSafeOutput(r: string)
  {
    && r != []
    && (forall k :: 0 <= k < |r| ==> IsPathChar(r[k]) || r[k] == '/')
    && (forall i :: 0 <= i < |Split(r, '/')| ==> Split(r, '/')[i] != [])
  }

  /** The `/`-join of kept segments is a safe output. */
  lemma SafeJoinIsSafe(safe: seq<string>)
    requires safe != []
    requires forall i :: 0 <= i < |safe| ==> IsSafeSegment(safe[i])
    ensures IsSafeOutput(Join(safe, '/'))
  {
    var r := Join(safe, '/');
    JoinChars(safe, '/', c => IsPathChar(c) || c == '/');
    SafeSegmentsNoSlash(safe);
    SplitJoin(safe, '/');
    assert IsSafeSegment(safe[0]);
    if |safe| > 1 { assert r == safe[0] + ['/'] + Join(safe[1..], '/'); } else { assert r == safe[0]; }
  }

  /** A simple reference is a safe output. */
  lemma SimpleRefIsSafe(r: string)
    requires IsSimpleRef(r)
    ensures IsSafeOutput(r) && '/' !in r
  {
    var ps := Split(r, ':');
    JoinSplit(r, ':');
    assert forall i, k :: 0 <= i < |ps| && 0 <= k < |ps[i]| ==> IsNameChar(ps[i][k]);
    JoinChars(ps, ':', c => IsNameChar(c) || c == ':');
    assert ps[0] != [];
    if |ps| == 2 { assert r == ps[0] + [':'] + ps[1]; } else { assert r == ps[0]; }
    assert '/' !in r by {
      forall k | 0 <= k < |r| ensures r[k] != '/' { assert IsNameChar(r[k]) || r[k] == ':'; }
    }
    SplitNoSep(r, '/');
  }

  /** Outside the `://` branch, every accepted reference is a safe output. */
  lemma SanitizedIsSafe(x: string, u: string -> Option<string>)
    requires !HasSubstring(Strip(x), "://")
    ensures Sanitize(Some(x), u).Some? ==> IsSafeOutput(Sanitize(Some(x), u).value)
  {
    var s := Strip(x);
    var r := Sanitize(Some(x), u);
    if r.Some? {
      if '/' in s {
        var kept := KeepSegments(Split(s, '/'), [], IsDomain);
        KeptSegmentsSafe(Split(s, '/'), []);
        assert kept.Some?;
        RegistryCase(x, u, IsDomain, kept.value);
        SafeJoinIsSafe(kept.value);
      } else {
        SimpleBranchShape(x, u);
        SimpleRefIsSafe(r.value);
      }
    }
  }

  /** What the loop as written keeps: a safe segment, or a domain followed by one newline. */
  predicate IsKeptAsWritten(p: string)
  {
    IsSafeSegment(p) || (p != [] && p[|p| - 1] == '\n' && IsSafeSegment(p[..|p| - 1]))
  }

  /** A segment that passes the domain check as written is a safe segment, possibly followed by a newline. */
  lemma DomainAsWrittenKept(p: string)
    requires IsDomainAsWritten(p)
    ensures IsKeptAsWritten(p)
  {
    if IsDomain(p) {
      DomainIsSafe(p);
    } else {
      DomainIsSafe(p[..|p| - 1]);
    }
  }

  /** Every segment the registry loop as written keeps is safe, or safe but for one trailing newline. */
  lemma {:induction false} KeptSegmentsAsWritten(parts: seq<string>, kept: seq<string>)
    requires forall i :: 0 <= i < |kept| ==> IsKeptAsWritten(kept[i])
    ensures var r := KeepSegments(parts, kept, IsDomainAsWritten);
      r.Some? ==> forall i :: 0 <= i < |r.value| ==> IsKeptAsWritten(r.value[i])
    decreases |parts|
  {
    if parts != [] {
      if kept == [] && '.' in parts[0] {
        if IsDomainAsWritten(parts[0]) {
          DomainAsWrittenKept(parts[0]);
          KeptSegmentsAsWritten(parts[1..], kept + [parts[0]]);
        }
      } else {
        var safe := Filter(parts[0], IsPathChar);
        KeptSegmentsAsWritten(parts[1..], if safe != "" then kept + [safe] else kept);
      }
    }
  }

  lemma KeptAsWrittenChars(p: string)
    requires IsKeptAsWritten(p)
    ensures forall k :: 0 <= k < |p| ==> IsPathChar(p[k]) || p[k] == '\n'
  {
    if !IsSafeSegment(p) {
      forall k | 0 <= k < |p| - 1 ensures IsPathChar(p[k]) {
        assert p[k] == p[..|p| - 1][k];
      }
    }
  }

  /**
    What the sanitiser as written does guarantee outside the `://` branch:
    every character of an accepted reference is a path character, a `/` or
    a newline.
  */
  lemma SanitizedAsWrittenChars(x: string, u: string -> Option<string>)
    requires !HasSubstring(Strip(x), "://")
    ensures var r := SanitizeAsWritten(Some(x), u);
      r.Some? ==> forall k :: 0 <= k < |r.value| ==> IsPathChar(r.value[k]) || r.value[k] == '/' || r.value[k] == '\n'
  {
    var s := Strip(x);
    var r := SanitizeAsWritten(Some(x), u);
    if r.Some? {
      if '/' in s {
        var kept := KeepSegments(Split(s, '/'), [], IsDomainAsWritten);
        KeptSegmentsAsWritten(Split(s, '/'), []);
        assert kept.Some?;
        RegistryCase(x, u, IsDomainAsWritten, kept.value);
        forall i, k | 0 <= i < |kept.value| && 0 <= k < |kept.value[i]|
          ensures IsPathChar(kept.value[i][k]) || kept.value[i][k] == '/' || kept.value[i][k] == '\n'
        {
          KeptAsWrittenChars(kept.value[i]);
        }
        JoinChars(kept.value, '/', c => IsPathChar(c) || c == '/' || c == '\n');
      } else {
        SimpleBranchAgrees(x, u);
        SimpleBranchShape(x, u);
        SimpleRefIsSafe(r.value);
      }
    }
  }

  /** While nothing is kept yet, a segment with a dot that is not a domain rejects the whole reference. */
  lemma BadDomainRejects(parts: seq<string>, k: nat, isDomain: string -> bool)
    requires k < |parts| && '.' in parts[k] && !isDomain(parts[k])
    requires forall j :: 0 <= j < k ==> '.' !in parts[j] && Filter(parts[j], IsPathChar) == ""
    ensures KeepSegments(parts, [], isDomain) == None
    decreases k
  {
    if k > 0 {
      assert parts[1..][k - 1] == parts[k];
      BadDomainRejects(parts[1..], k - 1, isDomain);
    }
  }

  /** Segments before the first one that is kept are dropped: the loop resumes after the domain with it kept. */
  lemma SkipToDomain(parts: seq<string>, k: nat, isDomain: string -> bool)
    requires k < |parts| && '.' in parts[k] && isDomain(parts[k])
    requires forall j :: 0 <= j < k ==> '.' !in parts[j] && Filter(parts[j], IsPathChar) == ""
    ensures KeepSegments(parts, [], isDomain) == KeepSegments(parts[k + 1..], [parts[k]], isDomain)
    decreases k
  {
    if k == 0 {
      assert [] + [parts[0]] == [parts[0]];
    } else {
      assert parts[1..][k - 1] == parts[k];
      assert parts[1..][k..] == parts[k + 1..];
      SkipToDomain(parts[1..], k - 1, isDomain);
    }
  }

  /**
    A domain that passes the check, after only segments that keep nothing, is
    kept verbatim as the first segment of the result.
  */
  lemma DomainKeptVerbatim(x: string, u: string -> Option<string>, isDomain: string -> bool, k: nat)
    requires var s := Strip(x); '/' in s && !HasSubstring(s, "://")
    requires var parts := Split(Strip(x), '/'); k < |parts| && '.' in parts[k] && isDomain(parts[k])
    requires var parts := Split(Strip(x), '/');
      forall j :: 0 <= j < k ==> '.' !in parts[j] && Filter(parts[j], IsPathChar) == ""
    ensures var r := SanitizeWith(Some(x), u, isDomain);
      r.Some? && Split(r.value, '/')[0] == Split(Strip(x), '/')[k]
  {
    var parts := Split(Strip(x), '/');
    SkipToDomain(parts, k, isDomain);
    KeepPrefix(parts[k + 1..], [parts[k]], isDomain);
    var safe := KeepSegments(parts, [], isDomain).value;
    assert safe[0] == parts[k] by {
      assert safe[..1] == [parts[k]];
    }
    RegistryBranch(x, u, isDomain);
  }

  /** The loop only ever appends: what was kept stays at the front. */
  lemma {:induction false} KeepPrefix(parts: seq<string>, kept: seq<string>, isDomain: string -> bool)
    requires kept != []
    ensures var r := KeepSegments(parts, kept, isDomain);
      r.Some? && |kept| <= |r.value| && r.value[..|kept|] == kept
    decreases |parts|
  {
    if parts != [] {
      var safe := Filter(parts[0], IsPathChar);
      var next := if safe != "" then kept + [safe] else kept;
      KeepPrefix(parts[1..], next, isDomain);
      var r := KeepSegments(parts[1..], next, isDomain).value;
      assert r[..|next|] == next;
      assert r[..|kept|] == r[..|next|][..|kept|];
    }
  }

  /** If every segment is empty, the reference is rejected. */
  lemma AllSegmentsEmptyRejects(x: string, u: string -> Option<string>, isDomain: string -> bool)
    requires var s := Strip(x); '/' in s && !HasSubstring(s, "://")
    requires forall i :: 0 <= i < |Split(Strip(x), '/')| ==> Split(Strip(x), '/')[i] == ""
    ensures SanitizeWith(Some(x), u, isDomain) == None
  {
    KeepNothing(Split(Strip(x), '/'), isDomain);
  }

  lemma {:induction false} KeepNothing(parts: seq<string>, isDomain: string -> bool)
    requires forall i :: 0 <= i < |parts| ==> parts[i] == ""
    ensures KeepSegments(parts, [], isDomain) == Some([])
    decreases |parts|
  {
    if parts != [] {
      assert parts[0] == "" && Filter("", IsPathChar) == "";
      KeepNothing(parts[1..], isDomain);
    }
  }

  /** Clean segments pass the loop unchanged. */
  lemma {:induction false} KeepClean(parts: seq<string>, kept: seq<string>, isDomain: string -> bool)
    requires forall i :: 0 <= i < |parts| ==> IsSafeSegment(parts[i])
    requires kept == [] && parts != [] && '.' in parts[0] ==> isDomain(parts[0])
    ensures KeepSegments(parts, kept, isDomain) == Some(kept + parts)
    decreases |parts|
  {
    if parts == [] {
      assert kept + parts == kept;
    } else {
      assert Filter(parts[0], IsPathChar) == parts[0];
      KeepClean(parts[1..], kept + [parts[0]], isDomain);
      assert kept + [parts[0]] + parts[1..] == kept + parts;
    }
  }

  /**
    A clean registry path (at least two non-empty segments of path
    characters, a leading segment with a dot being a valid domain) is
    returned unchanged.
  */
  lemma CleanPathUnchanged(parts: seq<string>, u: string -> Option<string>)
    requires |parts| >= 2
    requires forall i :: 0 <= i < |parts| ==> IsSafeSegment(parts[i])
    requires '.' in parts[0] ==> IsDomain(parts[0])
    ensures Sanitize(Some(Join(parts, '/')), u) == Some(Join(parts, '/'))
    ensures SanitizeAsWritten(Some(Join(parts, '/')), u) == Some(Join(parts, '/'))
  {
    var s := Join(parts, '/');
    SafeJoinNoNewline(parts);
    AgreeWithoutNewline(s, u);
    SafeJoinEnds(parts);
    PathEndsStripped(s);
    SafeJoinNoScheme(parts);
    SafeSegmentsNoSlash(parts);
    SplitJoin(parts, '/');
    KeepClean(parts, [], IsDomain);
    assert [] + parts == parts;
    RegistryCase(s, u, IsDomain, parts);
  }

  /** Safe segments and `/` contain no newline. */
  lemma SafeJoinNoNewline(parts: seq<string>)
    requires forall i :: 0 <= i < |parts| ==> IsSafeSegment(parts[i])
    ensures '\n' !in Join(parts, '/')
  {
    forall i, k | 0 <= i < |parts| && 0 <= k < |parts[i]| ensures parts[i][k] != '\n' {
      assert IsSafeSegment(parts[i]);
    }
    JoinChars(parts, '/', c => c != '\n');
    var j := Join(parts, '/');
    assert forall k :: 0 <= k < |j| ==> j[k] != '\n';
  }

  lemma SafeSegmentsNoSlash(parts: seq<string>)
    requires forall i :: 0 <= i < |parts| ==> IsSafeSegment(parts[i])
    ensures forall i :: 0 <= i < |parts| ==> parts[i] != [] && '/' !in parts[i]
  {
    forall i | 0 <= i < |parts| ensures parts[i] != [] && '/' !in parts[i] {
      assert IsSafeSegment(parts[i]);
    }
  }

  lemma SafeJoinEnds(parts: seq<string>)
    requires |parts| >= 1
    requires forall i :: 0 <= i < |parts| ==> IsSafeSegment(parts[i])
    ensures var s := Join(parts, '/'); s != [] && IsPathChar(s[0]) && IsPathChar(s[|s| - 1])
  {
    var first, last := parts[0], parts[|parts| - 1];
    JoinEnds(parts, '/');
    assert IsSafeSegment(first) && IsSafeSegment(last);
  }

  lemma PathEndsStripped(s: string)
    requires s != [] && IsPathChar(s[0]) && IsPathChar(s[|s| - 1])
    ensures Strip(s) == s
  {
    StripUnchanged(s);
  }

  /** A join of at least two safe segments contains `/` but no `://`. */
  lemma SafeJoinNoScheme(parts: seq<string>)
    requires |parts| >= 2
    requires forall i :: 0 <= i < |parts| ==> IsSafeSegment(parts[i])
    ensures !HasSubstring(Join(parts, '/'), "://") && '/' in Join(parts, '/')
  {
    var s := Join(parts, '/');
    assert s == parts[0] + ['/'] + Join(parts[1..], '/');
    assert s[|parts[0]|] == '/';
    SafeSegmentsNoSlash(parts);
    JoinNoDoubleSep(parts, '/');
    NoDoubleSlashNoScheme(s);
  }

  /** A join of non-empty pieces starts with the first piece's first character and ends with the last's last. */
  lemma {:induction false} JoinEnds(parts: seq<string>, sep: char)
    requires |parts| >= 1 && parts[0] != [] && parts[|parts| - 1] != []
    ensures var j := Join(parts, sep);
      j != [] && j[0] == parts[0][0] && j[|j| - 1] == parts[|parts| - 1][|parts[|parts| - 1]| - 1]
    decreases |parts|
  {
    if |parts| > 1 {
      var rest := parts[1..];
      assert rest[|rest| - 1] == parts[|parts| - 1];
      if |rest| == 1 {
        assert Join(parts, sep) == parts[0] + [sep] + rest[0];
      } else {
        assert rest[0] == parts[1];
        JoinEndsLast(rest, sep);
      }
    }
  }

  lemma {:induction false} JoinEndsLast(parts: seq<string>, sep: char)
    requires |parts| >= 1 && parts[|parts| - 1] != []
    ensures var j := Join(parts, sep);
      j != [] && j[|j| - 1] == parts[|parts| - 1][|parts[|parts| - 1]| - 1]
    decreases |parts|
  {
    if |parts| > 1 {
      var rest := parts[1..];
      assert rest[|rest| - 1] == parts[|parts| - 1];
      JoinEndsLast(rest, sep);
    }
  }

  // ---------------------------------------------------------------------
  // container_version
  // ---------------------------------------------------------------------

  /** Appending text to a join extends its last piece. */
  lemma {:induction false} JoinAppendLast(parts: seq<string>, sep: char, t: string)
    requires |parts| >= 1
    ensures Join(parts, sep) + t == Join(parts[..|parts| - 1] + [parts[|parts| - 1] + t], sep)
    decreases |parts|
  {
    var n := |parts|;
    var front := parts[..n - 1] + [parts[n - 1] + t];
    if n == 1 {
      assert front == [parts[0] + t];
    } else {
      JoinAppendLast(parts[1..], sep, t);
      assert front[0] == parts[0];
      assert front[1..] == parts[1..][..n - 2] + [parts[1..][n - 2] + t];
      calc {
        Join(front, sep);
        front[0] + [sep] + Join(front[1..], sep);
        parts[0] + [sep] + (Join(parts[1..], sep) + t);
        parts[0] + [sep] + Join(parts[1..], sep) + t;
      }
    }
  }

  /**
    `container_version` of a clean registry path and a tag of path
    characters is exactly `repo:tag`.
  */
  lemma ContainerVersionOfCleanPath(repoParts: seq<string>, version: string, u: string -> Option<string>)
    requires |repoParts| >= 2
    requires forall i :: 0 <= i < |repoParts| ==> IsSafeSegment(repoParts[i])
    requires '.' in repoParts[0] ==> IsDomain(repoParts[0])
    requires forall k :: 0 <= k < |version| ==> IsPathChar(version[k])
    ensures var ref := Join(repoParts, '/') + ":" + version;
      Sanitize(Some(ref), u) == Some(ref) && SanitizeAsWritten(Some(ref), u) == Some(ref)
  {
    var ref := Join(repoParts, '/') + ":" + version;
    var parts := TaggedPath(repoParts, version);
    FixedPointOf(ref, parts, u);
  }

  /** `repo:tag` is the join of the repository's segments with the tag appended to the last one. */
  lemma TaggedPath(repoParts: seq<string>, version: string) returns (parts: seq<string>)
    requires |repoParts| >= 2
    requires forall i :: 0 <= i < |repoParts| ==> IsSafeSegment(repoParts[i])
    requires '.' in repoParts[0] ==> IsDomain(repoParts[0])
    requires forall k :: 0 <= k < |version| ==> IsPathChar(version[k])
    ensures parts == repoParts[..|repoParts| - 1] + [repoParts[|repoParts| - 1] + (":" + version)]
    ensures |parts| >= 2 && forall i :: 0 <= i < |parts| ==> IsSafeSegment(parts[i])
    ensures '.' in parts[0] ==> IsDomain(parts[0])
    ensures Join(parts, '/') == Join(repoParts, '/') + ":" + version
  {
    var n := |repoParts|;
    parts := repoParts[..n - 1] + [repoParts[n - 1] + (":" + version)];
    JoinAppendLast(repoParts, '/', ":" + version);
    assert Join(repoParts, '/') + ":" + version == Join(repoParts, '/') + (":" + version);
    TaggedSegmentSafe(repoParts[n - 1], version);
    forall i | 0 <= i < |parts| ensures IsSafeSegment(parts[i]) {
      if i < n - 1 { assert parts[i] == repoParts[i]; }
    }
    assert parts[0] == repoParts[0];
  }

  lemma FixedPointOf(a: string, parts: seq<string>, u: string -> Option<string>)
    requires a == Join(parts, '/')
    requires |parts| >= 2 && forall i :: 0 <= i < |parts| ==> IsSafeSegment(parts[i])
    requires '.' in parts[0] ==> IsDomain(parts[0])
    ensures Sanitize(Some(a), u) == Some(a) && SanitizeAsWritten(Some(a), u) == Some(a)
  {
    CleanPathUnchanged(parts, u);
  }

  lemma TaggedSegmentSafe(seg: string, version: string)
    requires IsSafeSegment(seg)
    requires forall k :: 0 <= k < |version| ==> IsPathChar(version[k])
    ensures IsSafeSegment(seg + (":" + version))
  {
    var t := seg + (":" + version);
    forall k | 0 <= k < |t| ensures IsPathChar(t[k]) {
      if k < |seg| { assert t[k] == seg[k]; }
      else if k > |seg| { assert t[k] == version[k - |seg| - 1]; }
    }
  }

  /** A simple name and a simple tag give back exactly `name:tag`. */
  lemma ContainerVersionOfSimpleName(name: string, version: string, u: string -> Option<string>)
    requires name != [] && version != []
    requires forall k :: 0 <= k < |name| ==> IsNameChar(name[k])
    requires forall k :: 0 <= k < |version| ==> IsNameChar(version[k])
    ensures Sanitize(Some(name + ":" + version), u) == Some(name + ":" + version)
    ensures SanitizeAsWritten(Some(name + ":" + version), u) == Some(name + ":" + version)
  {
    assert ':' !in name && ':' !in version by {
      assert forall k :: 0 <= k < |name| ==> name[k] != ':';
      assert forall k :: 0 <= k < |version| ==> version[k] != ':';
    }
    NameColonTag(name, version);
    SimpleRefUnchanged(name + ":" + version, u);
  }
}
