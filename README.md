# rapidctl core in Dafny

This project models the three pieces of rapidctl that hold its logic, and proves properties about them.

- **Version parser** (`VersionParser`, `rapidctl/utils/version.py`). It classifies an image tag as a semantic version (`v?MAJOR.MINOR.PATCH…`), a numeric timestamp or a custom tag. It also defines a piecewise three-way comparison of two tags:
  - `"latest"` is newer than everything;
  - a semantic version is older than a timestamp;
  - other mixed kinds fall back to code-point string order;
  - equal kinds compare their integer components lexicographically.
- **Client and image-reference sanitiser** (`CtlClient`, `rapidctl/bootstrap/client.py`). The client has its default settings, and the `container_version` property builds `repo:version` and passes it through `_container_validator`. The validator:
  - rejects empty input;
  - strips whitespace;
  - sends a reference containing `/` through a per-segment filter, where a leading dotted segment must be a DNS-style domain;
  - reduces `name[:tag]` references to name characters.
- **Local image lookup** (`local_search`, `rapidctl/cli/tasks.py`). It finds the first listed image whose tags contain the reference exactly.

Modules:

- `Wrappers`: `Option`, which stands for Python's `None` or a value.
- `Text`: Python string primitives:
  - `str.strip` with the `str.isspace` characters;
  - `str.split` and `str.join`;
  - `re.sub` with a character class;
  - `str < str` as code-point order;
  - `(a > b) - (a < b)`;
  - `int(s)` and `str(n)` on ASCII digits, without CPython's limit on the number of digits (see "## Left out").
- `Version`: `Parse` and `Compare` and their lemmas.
- `Client`: the sanitiser as functions, and the class `CtlClient` with its fields.
  - `SanitizeWith` takes the domain check as a parameter. `SanitizeAsWritten` uses the check of client.py:75 as written, and `Sanitize` the corrected check (see Findings).
  - The method `ContainerValidator` builds the kept segments in a loop, as the source does, and is proved equal to `SanitizeAsWritten`.
  - `AgreeWithoutNewline` proves that the two sanitisers differ only on references containing a newline.
- `Tasks`: `LocalSearch`, a loop method, proved against the first-index function `FirstMatch`.
- `VersionExamples`, `ClientExamples`: the documented cases from the repository's tests and demonstration script, each proved from the general lemmas. The session's `list_images` result and the `://` branch's `urlparse` result are parameters.

## Model

| member | source | states |
|---|---|---|
| Version.MatchTriple | rapidctl/utils/version.py:36-38 | `^(\d+)\.(\d+)\.(\d+)` on the tag without its `v`: a match yields three integers and the tag starts with a digit. That it matches exactly where the pattern does, with the groups' integers, is `Version.MatchTripleMeans` |
| Version.MatchTripleMeans | rapidctl/utils/version.py:36-38 | the match succeeds exactly when `(\d+)\.(\d+)\.(\d+)` matches at the start of the tag (three digit runs separated by dots, the last taking every digit it can), and then yields the integers of the three groups |
| Version.TripleAt | rapidctl/utils/version.py:36 | definition of a match of `^(\d+)\.(\d+)\.(\d+)` with its groups ending at `i`, `j` and `k`: dots at `i` and `j`, non-empty ASCII digit runs before `i`, between the dots and from `j + 1` to `k`, and the third run greedy (`k` is the end or a non-digit) |
| Version.MatchTripleShape | rapidctl/utils/version.py:36-38 | on `D1.D2.D3rest`, with D1, D2 and D3 digit runs, the match yields `int(D1)`, `int(D2)` and the integer of the whole digit run that starts at D3 |
| Version.IsSemver | rapidctl/utils/version.py:11-15 | definition: `re.match(r'^v?\d+\.\d+\.\d+', s)`, with `v?` tried present, then absent. Its meaning is `Version.IsSemverMeans` |
| Version.IsSemverMeans | rapidctl/utils/version.py:11-15 | `is_semver` holds exactly when the triple pattern matches at the start of the tag or right after one leading `v` |
| Version.IsTimestamp | rapidctl/utils/version.py:17-20 | definition: `isdigit`, false on `""` and true exactly on non-empty strings of (ASCII) digits. Its properties are `Version.DigitsNotSemver` and `Version.TimestampRoundTrip` |
| Version.Parse | rapidctl/utils/version.py:23-56 | classification is prioritised and total. The kind is semver exactly when `^v?\d+\.\d+\.\d+` matches, with 3 components. Otherwise it is timestamp exactly when the tag is non-empty and all digits, with the single component `int(tag)`. Otherwise it is custom, with no components. The raw string is kept |
| Version.LStripV | rapidctl/utils/version.py:34 | `lstrip('v')` removes a prefix made only of `v` characters and returns the rest of the tag, which does not start with `v` |
| Version.SemverRematches | rapidctl/utils/version.py:32-37 | after `lstrip('v')`, the second regex matches whenever the first did, so the `if matches` fallthrough never happens |
| Version.ParseKindsConsistent | rapidctl/utils/version.py:32-50 | a semantic version always yields its triple, and a timestamp is never a semantic version |
| Version.DigitsNotSemver | rapidctl/utils/version.py:15-20 | an all-digit tag never matches the semver pattern |
| Version.LatestIsCustom | rapidctl/utils/version.py:32-56 | `"latest"` classifies as a custom tag |
| Version.NotLatest | rapidctl/utils/version.py:75-88 | semantic versions and timestamps are never `"latest"` |
| Version.LexCompare | rapidctl/utils/version.py:93-105 | the zip loop followed by the length check returns -1, 0 or 1, and returns 0 exactly when the component lists are equal |
| Version.LexCompareAntisymmetric | rapidctl/utils/version.py:93-105 | swapping the component lists negates the result |
| Version.TripleCompare | rapidctl/utils/version.py:93-105 | on triples, -1 means the lexicographic (major, minor, patch) order |
| Version.Compare | rapidctl/utils/version.py:59-105 | the result is always -1, 0 or 1 |
| Version.CompareReflexive | rapidctl/utils/version.py:72-73 | `compare(x, x) == 0` for every tag |
| Version.LatestDominates | rapidctl/utils/version.py:76-79 | for every y other than `"latest"`, `compare(y, "latest") == -1` and `compare("latest", y) == 1`; also `compare("latest", "latest") == 0` |
| Version.CompareAntisymmetric | rapidctl/utils/version.py:59-105 | `compare(a, b) == -compare(b, a)` for all tags |
| Version.SemverOlderThanTimestamp | rapidctl/utils/version.py:85-88 | any semantic version is older than any timestamp, whatever the numbers, in both argument orders |
| Version.SemverOrder | rapidctl/utils/version.py:93-105 | two semantic versions compare equal exactly when their triples are equal, and -1 exactly when the first triple is lexicographically smaller |
| Version.TimestampOrder | rapidctl/utils/version.py:45-50 | two timestamps compare by their integer values |
| Version.CustomTagsEqual | rapidctl/utils/version.py:93-105 | two custom tags, neither `"latest"`, compare equal |
| Version.MixedKindStringOrder | rapidctl/utils/version.py:89-90 | a custom tag against a semver or a timestamp compares by code-point order of the raw strings; the result is never 0 |
| Version.CompareNotTransitive | rapidctl/utils/version.py:83-90 | counterexample to transitivity: `"9.0.0" < "1"`, `"1" < "5x"` and `"5x" < "9.0.0"` |
| Version.SemverShape | rapidctl/utils/version.py:15-43 | a `[v]d1.d2.d3…` tag is semver, and its first two components are `int(d1)` and `int(d2)`. When no digit follows `d3`, its components are exactly `[int(d1), int(d2), int(d3)]` |
| Version.ParseSemver | rapidctl/utils/version.py:32-43 | with an optional single `v`, the parsed components are the regex groups |
| Version.ParseAfterStrip | rapidctl/utils/version.py:32-43 | parsing keeps the groups of the tag after `lstrip('v')` |
| Version.SemverRoundTrip | rapidctl/utils/version.py:32-43 | rendering a triple as `[v]major.minor.patch` and parsing it gives back the same triple |
| Version.TimestampRoundTrip | rapidctl/utils/version.py:45-50 | `str(n)` parses as a timestamp with component `n` |
| Version.PrefixAndSuffixIgnored | rapidctl/utils/version.py:15-36 | a tag made of a leading `v`, `d1.d2.d3` and a suffix that does not start with a digit compares equal (0) to the bare `d1.d2.d3`. Against a custom tag the `v` does matter (`VersionExamples.VPrefixAgainstCustom`) |
| VersionExamples.SemverDetection | tests/test_version_management.py:22-31 | `"1.2.3"` and `"v1.2.3"` are semver and not timestamps, and both parse to `[1, 2, 3]` |
| VersionExamples.TimestampDetection | tests/test_version_management.py:25-29 | `"1746190043"` is a timestamp and not semver. `"latest"` is neither, and `""` is custom |
| VersionExamples.CompareSemverCases | tests/test_version_management.py:33-37 | the four semver comparisons of the test suite |
| VersionExamples.CompareTimestampCases | tests/test_version_management.py:39-42 | the three timestamp comparisons |
| VersionExamples.CompareLatestCases | tests/test_version_management.py:44-47 | the three `"latest"` comparisons |
| VersionExamples.CompareMixedCases | tests/test_version_management.py:49-52 | `"1.0.0"` < `"1746190043"` in both orders |
| VersionExamples.VPrefixAgainstCustom | rapidctl/utils/version.py:82-89 | `"1.2.3"` and `"v1.2.3"` compare 0 to each other, but against the custom tag `"abc"` the first compares -1 and the second 1, because that comparison uses the raw strings |
| Text.IsSpace | rapidctl/bootstrap/client.py:46 | definition of the characters `str.strip()` removes: Python's `str.isspace` set, that is ASCII tab through carriage return, the separators U+001C to U+001F, space, U+0085, U+00A0, U+1680, U+2000 to U+200A, U+2028, U+2029, U+202F, U+205F and U+3000 |
| Text.Strip | rapidctl/bootstrap/client.py:46 | the result of `str.strip()` neither starts nor ends with whitespace and is no longer than the input |
| Text.StripTrims | rapidctl/bootstrap/client.py:46 | `str.strip()` removes whitespace only, and all of it at both ends: the result is a contiguous slice of the input and every character before and after that slice is whitespace |
| Text.StripLeft | rapidctl/bootstrap/client.py:46 | the left strip is a suffix of the input, and every character removed is whitespace |
| Text.StripRight | rapidctl/bootstrap/client.py:46 | the right strip is a prefix of the input, every character removed is whitespace, and the result does not end with whitespace |
| Text.StripExcludes | rapidctl/bootstrap/client.py:46 | stripping introduces no character: one absent from the input is absent from its strip |
| Text.StripUnchanged | rapidctl/bootstrap/client.py:46 | a string that neither starts nor ends with whitespace is its own strip |
| Text.AllSpacesStrip | rapidctl/bootstrap/client.py:46 | a string of whitespace strips to `""` |
| Text.Filter | rapidctl/bootstrap/client.py:81 | `re.sub(r'[^class]', '', s)` keeps only class characters, so it is no longer than `s`. It is the identity when every character is in the class, and is empty exactly when none is |
| Text.FilterConcat | rapidctl/bootstrap/client.py:81 | filtering distributes over concatenation |
| Text.Split | rapidctl/bootstrap/client.py:68 | `str.split(sep)` gives at least one piece, and no piece contains `sep` |
| Text.SplitExcludes | rapidctl/bootstrap/client.py:68 | splitting introduces no character: one absent from the input is absent from every piece |
| Text.Join | rapidctl/bootstrap/client.py:86 | definition of `sep.join(parts)`. Its properties are `Text.JoinSplit`, `Text.SplitJoin`, `Text.JoinChars` and `Text.JoinNoDoubleSep` |
| Text.JoinSplit | rapidctl/bootstrap/client.py:68-86 | `sep.join(s.split(sep)) == s` |
| Text.SplitJoin | rapidctl/bootstrap/client.py:68-86 | joining one or more pieces that contain no `sep`, then splitting, gives the pieces back |
| Text.SplitPrefix | rapidctl/bootstrap/client.py:90 | `(p + sep + t).split(sep)` is `[p]` followed by `t.split(sep)`, when `p` has no `sep` |
| Text.SplitNoSep | rapidctl/bootstrap/client.py:90 | a string without `sep` splits into itself alone |
| Text.JoinChars | rapidctl/bootstrap/client.py:86 | the join of pieces drawn from a character class, with a separator in that class, is drawn from the class |
| Text.JoinNoDoubleSep | rapidctl/bootstrap/client.py:85-86 | joining non-empty pieces never puts two separators in a row |
| Text.NoDoubleSlashNoScheme | rapidctl/bootstrap/client.py:51 | a string with no `//` does not contain `://` |
| Text.NoColonNoScheme | rapidctl/bootstrap/client.py:51 | a string with no `:` does not contain `://` |
| Text.HasSubstring | rapidctl/bootstrap/client.py:51 | definition of `t in s` for strings: `t` occurs at some position of `s` |
| Text.StrLess | rapidctl/utils/version.py:90 | definition of Python's `<` on strings: code-point order at the first difference, and a proper prefix is smaller. Its order properties are the four lemmas below |
| Text.StrLessIrreflexive | rapidctl/utils/version.py:90 | no string is below itself under Python's `<` |
| Text.StrLessAsymmetric | rapidctl/utils/version.py:90 | `a < b` and `b < a` never both hold |
| Text.StrLessTotal | rapidctl/utils/version.py:90 | distinct strings are ordered one way or the other |
| Text.StrLessTransitive | rapidctl/utils/version.py:90 | Python's `<` on strings is transitive |
| Text.StrCmp | rapidctl/utils/version.py:90 | `(a > b) - (a < b)` is -1, 0 or 1 exactly when `a < b`, `a == b` or `b < a` |
| Text.IsDigit | rapidctl/utils/version.py:15 | definition of `\d` as the ASCII digits `0-9` (see "## Left out") |
| Text.AllDigits | rapidctl/utils/version.py:20 | definition of the digits-only half of `str.isdigit`, on ASCII digits (see "## Left out") |
| Text.DigitRun | rapidctl/utils/version.py:36 | `\d+` takes the maximal run of leading digits |
| Text.DigitRunAppend | rapidctl/utils/version.py:36 | the digit run of `d + t`, with `d` all digits, is the length of `d` plus the run of `t` |
| Text.DigitRunAt | rapidctl/utils/version.py:36 | a run of `n` digits followed by a non-digit or the end is exactly what a greedy `\d+` consumes |
| Text.Value | rapidctl/utils/version.py:38-48 | definition of `int(s)` on digits (leading zeros allowed). Its partner is `Text.ValueDigits` |
| Text.Digits | rapidctl/utils/version.py:48 | `str(n)` is non-empty and all digits |
| Text.ValueDigits | rapidctl/utils/version.py:38-48 | `int(str(n)) == n` |
| Client.CtlClient.constructor | rapidctl/bootstrap/client.py:14-19 | the defaults: no repository, baseline `"1.0.0"`, client `"0.0.1"`, no image id, command path `"/opt/rapidctl/cmd/"` |
| Client.Show | rapidctl/bootstrap/client.py:29 | definition of `"%s" % value` for an optional string: `None` renders as `"None"` |
| Client.CtlClient.ContainerVersion | rapidctl/bootstrap/client.py:21-29 | the property is the sanitiser as written (`SanitizeAsWritten`, the `$` of the domain check included) applied to `"%s:%s" % (repo, version)`, with `None` rendered as `"None"`. It modifies nothing |
| Client.CtlClient.ContainerValidator | rapidctl/bootstrap/client.py:31-104 | the method, with its `safe_parts` loop and the domain check of line 75 as written, returns exactly what `SanitizeAsWritten` defines |
| Client.IsNameChar | rapidctl/bootstrap/client.py:93-97 | definition of the class `[a-zA-Z0-9._-]` that the name and the tag keep |
| Client.IsPathChar | rapidctl/bootstrap/client.py:81 | definition of the class `[a-zA-Z0-9._:@-]` that a repository segment keeps |
| Client.IsLabelChar | rapidctl/bootstrap/client.py:75 | definition of the inner class `[a-zA-Z0-9\:\-]` of a domain label |
| Client.IsLabel | rapidctl/bootstrap/client.py:75 | definition of one label of the domain pattern: 1 to 63 characters of `[A-Za-z0-9:-]`, starting and ending alphanumeric |
| Client.IsDomain | rapidctl/bootstrap/client.py:75 | definition of the domain pattern anchored at the very end: every dot-separated piece is a label |
| Client.IsDomainAsWritten | rapidctl/bootstrap/client.py:75 | definition of the domain check as written: `$` also lets through a domain followed by one trailing newline |
| Client.KeepSegments | rapidctl/bootstrap/client.py:68-83 | definition of the `for part in parts` loop from a state of kept segments, with the domain check as a parameter |
| Client.SimpleName | rapidctl/bootstrap/client.py:88-104 | definition of the simple-name branch |
| Client.SanitizeWith | rapidctl/bootstrap/client.py:31-104 | definition of `_container_validator` with the domain check as a parameter and the `://` branch as the parameter `parseUrl` |
| Client.SanitizeAsWritten | rapidctl/bootstrap/client.py:31-104 | definition of the sanitiser with the domain check of line 75 as written |
| Client.Sanitize | rapidctl/bootstrap/client.py:31-104 | definition of the sanitiser with the domain check anchored at the very end (the corrected half of Findings) |
| Client.RegistryBranch | rapidctl/bootstrap/client.py:66-87 | for any domain check: with a `/` and no `://`, the result is `None` exactly when the loop rejects or keeps nothing; otherwise splitting the result at `/` gives back exactly the kept segments |
| Client.KeptNoSlash | rapidctl/bootstrap/client.py:68-83 | for any domain check: no kept segment contains `/` |
| Client.KeepSegmentsAgree | rapidctl/bootstrap/client.py:71-83 | two domain checks that agree on every segment give the same loop result |
| Client.NoNewlineDomain | rapidctl/bootstrap/client.py:75 | on a segment without a newline, the domain check as written and the end-anchored one agree |
| Client.AgreeWithoutNewline | rapidctl/bootstrap/client.py:31-104 | on every reference without a newline the sanitiser as written and the corrected one return the same result, so every property proved of `Sanitize` holds of the source on such references |
| Client.SimpleBranchAgrees | rapidctl/bootstrap/client.py:88-104 | without a `/` the domain check is never consulted: both sanitisers return the simple-name result |
| Client.RejectsEmpty | rapidctl/bootstrap/client.py:41-46 | `None`, `""` and all-whitespace input are rejected, by the sanitiser as written and by the corrected one |
| Client.NameColonTag | rapidctl/bootstrap/client.py:90 | `name:tag` without further colons splits into `[name, tag]` |
| Client.SimpleNameShape | rapidctl/bootstrap/client.py:88-104 | the simple branch returns `None`, or `name` or `name:tag` with both parts non-empty and made of `[A-Za-z0-9._-]` |
| Client.SimpleBranchShape | rapidctl/bootstrap/client.py:88-104 | the same, for a whole reference without `/`, where the sanitiser as written and the corrected one agree |
| Client.TagFallback | rapidctl/bootstrap/client.py:93-104 | an empty sanitised name rejects; an empty sanitised tag falls back to the bare name |
| Client.SecondColonDiscarded | rapidctl/bootstrap/client.py:90-99 | text after a second `:` is discarded |
| Client.SimpleRefUnchanged | rapidctl/bootstrap/client.py:88-104 | a simple reference sanitises to itself, as written and corrected |
| Client.SimpleBranchIdempotent | rapidctl/bootstrap/client.py:88-104 | sanitising an output of the simple branch again returns it unchanged, as written and corrected |
| Client.DomainIsSafe | rapidctl/bootstrap/client.py:75 | with the end-anchored domain check, a passing segment is non-empty and made of path characters |
| Client.KeptSegmentsSafe | rapidctl/bootstrap/client.py:71-83 | with the end-anchored domain check, every segment the loop keeps is non-empty and made of `[A-Za-z0-9._:@-]` |
| Client.DomainAsWrittenKept | rapidctl/bootstrap/client.py:75 | with the domain check as written, a passing segment is a safe segment, or a safe segment followed by one newline |
| Client.KeptSegmentsAsWritten | rapidctl/bootstrap/client.py:71-83 | with the domain check as written, every segment the loop keeps is safe, or safe but for one trailing newline |
| Client.SanitizedAsWrittenChars | rapidctl/bootstrap/client.py:46-104 | what the source guarantees outside the `://` branch: every character of an accepted reference is in `[A-Za-z0-9._:@-]`, a `/` or a newline |
| Client.SanitizedIsSafe | rapidctl/bootstrap/client.py:46-104 | with the end-anchored domain check and outside the `://` branch, an accepted reference is non-empty and made only of `[A-Za-z0-9._:@-]` and `/`, so it has no whitespace, `;` or other shell metacharacter. It has no empty `/`-segment |
| Client.BadDomainRejects | rapidctl/bootstrap/client.py:73-78 | for any domain check, the one of line 75 as written included: while nothing is kept, a dotted segment that fails the check rejects the whole reference |
| Client.SkipToDomain | rapidctl/bootstrap/client.py:71-83 | for any domain check: segments before a passing domain that are dot-free and keep no character are dropped, and the loop resumes after the domain with only it kept |
| Client.DomainKeptVerbatim | rapidctl/bootstrap/client.py:71-86 | for any domain check: a dotted segment that passes it, preceded only by dot-free segments that keep no character, is the first segment of the result, verbatim |
| Client.KeepPrefix | rapidctl/bootstrap/client.py:71-83 | for any domain check: once something is kept, the loop never rejects and only appends |
| Client.AllSegmentsEmptyRejects | rapidctl/bootstrap/client.py:85-87 | for any domain check: if every segment is empty, the result is `None` |
| Client.KeepNothing | rapidctl/bootstrap/client.py:80-83 | for any domain check: empty segments are dropped |
| Client.KeepClean | rapidctl/bootstrap/client.py:71-83 | for any domain check that accepts a dotted leading segment: clean segments pass the loop unchanged |
| Client.CleanPathUnchanged | rapidctl/bootstrap/client.py:66-87 | a clean registry path (at least two safe segments, a dotted first segment being a domain) is returned unchanged, as written and corrected |
| Client.ContainerVersionOfCleanPath | rapidctl/bootstrap/client.py:66-87 | `container_version` of a clean path and a tag of path characters is exactly `repo:tag`, as written and corrected |
| Client.ContainerVersionOfSimpleName | rapidctl/bootstrap/client.py:88-99 | `container_version` of a simple name and tag is exactly `name:tag`, as written and corrected |
| ClientExamples.FreshClientVersion | rapidctl/bootstrap/client.py:14-29 | a fresh client's reference `"None:1.0.0"` is kept, as written and corrected |
| ClientExamples.TestClientVersion | tests/test_client.py:10-14 | `"example.com/repo/container:test"` is kept, as written and corrected |
| ClientExamples.ClientVersions | tests/test_client.py:6-14 | through the class, which uses the domain check as written: a fresh client gives `"None:1.0.0"`; after setting repository and version, `"example.com/repo/container:test"` |
| ClientExamples.InjectionStripped | tests/test_conatiner_validator.py:13 | `"ubuntu; rm -rf /"` gives `"ubunturm-rf"`, as written and corrected |
| ClientExamples.TaggedNameKept | tests/test_conatiner_validator.py:9 | `"ubuntu:20.04"` is kept, as written and corrected |
| ClientExamples.NotIdempotent | rapidctl/bootstrap/client.py:81-93 | `"foo@bar/"` gives `"foo@bar"`, which gives `"foobar"`, as written and corrected: sanitising is not idempotent in general |
| ClientExamples.EmptyTagFallsBack | rapidctl/bootstrap/client.py:96-102 | `"ubuntu:!!"` gives `"ubuntu"`, as written and corrected |
| ClientExamples.EmptyNameRejected | rapidctl/bootstrap/client.py:93-104 | `":latest"` gives `None`, as written and corrected |
| ClientExamples.SecondTagDropped | rapidctl/bootstrap/client.py:90-99 | `"a:b:c"` gives `"a:b"`, as written and corrected |
| ClientExamples.KeepOneSegment | rapidctl/bootstrap/client.py:71-83 | a dot-free segment followed by a trailing `/` keeps only the filtered segment |
| ClientExamples.NewlineSurvivesAsWritten | rapidctl/bootstrap/client.py:75 | as written, `"evil.com\n/x"` is returned unchanged, newline included |
| ClientExamples.NewlineRejected | rapidctl/bootstrap/client.py:73-78 | with the end-anchored domain check, `"evil.com\n/x"` is rejected |
| Tasks.Matches | rapidctl/cli/tasks.py:7 | definition: the image at that index carries the reference as one of its tags, verbatim |
| Tasks.FirstMatch | rapidctl/cli/tasks.py:6-10 | the first index whose image carries the tag: `None` exactly when no image does; otherwise that image matches and no earlier one does |
| Tasks.LocalSearch | rapidctl/cli/tasks.py:3-10 | the reference is optional, because `container_version` is `None` after a rejected reference: then the result is `None`, as `None in image.tags` never holds. For a reference it is `None` exactly when no listed image has the tag, and otherwise the `short_id` of the lowest-indexed image that has it, equal to `FirstMatch`'s image. It reads only the given list |
| Tasks.FirstIsUnique | rapidctl/cli/tasks.py:6-8 | a matching index with no match before it is the first match |
| Tasks.FirstMatchAppend | rapidctl/cli/tasks.py:6-8 | images listed after a match never change the result |
| Tasks.ExactTagMatch | rapidctl/cli/tasks.py:7 | matching is exact membership: `"repo:1.0"` does not match an image tagged only `"repo:1.0.0"`, which `"repo:1.0.0"` does match |

## Left out

- The `://` branch of the sanitiser (rapidctl/bootstrap/client.py:51-65) rests on `urllib.parse.urlparse`. It is a parameter `parseUrl` whose result is returned as it is. No safety property is claimed for it: it passes `netloc` through unsanitised.
- Client.SanitizedIsSafe: holds only outside the `://` branch, for the reason above, and only with the end-anchored domain check. As written, an accepted reference may contain a newline (see Findings). `Client.SanitizedAsWrittenChars` states what the source does guarantee.
- Client.DomainIsSafe: proved for the end-anchored domain check only. Under line 75's `$`, a passing segment may end in a newline, which is not a path character. `Client.DomainAsWrittenKept` states that case.
- Client.KeptSegmentsSafe: proved for the end-anchored domain check only. The loop as written may keep a domain followed by a newline. `Client.KeptSegmentsAsWritten` states that case.
- A value that is not a string and `None` are the same input (`None`) in the model. Both are rejected.
- `\d` and `str.isdigit` are ASCII `0-9` only. Python also accepts other Unicode digits. One consequence: for a character such as `'²'`, `isdigit` is true but `int` fails, so `parse` and `compare` raise `ValueError` (rapidctl/utils/version.py:45-48). The model classifies such a tag as custom instead.
- General idempotence of the sanitiser is false (`ClientExamples.NotIdempotent`). Only the simple-name branch is idempotent.
- Transitivity of `compare` is false (`Version.CompareNotTransitive`).
- Version.PrefixAndSuffixIgnored: the leading `v` and the suffix are ignored only between typed tags. Against a custom tag, `compare` orders the raw strings (rapidctl/utils/version.py:82-89), which include them: `VersionExamples.VPrefixAgainstCustom` gives `"1.2.3"` below `"abc"` but `"v1.2.3"` above it.
- Version.Parse: CPython's limit on the length of a decimal string given to `int` is not modelled (4300 digits by default, `sys.int_max_str_digits`). For a longer digit run, `int` raises `ValueError` at rapidctl/utils/version.py:38 or 48, and so does `compare` on such a tag (lines 68-69), even `compare(x, x)`. The model's `Parse` is total and gives that run its integer value. `Version.Compare` and its lemmas therefore describe the source only for tags whose digit runs are within the limit. `int("")` is never reached, because every run passed to `Value` is non-empty.
- The session's `list_images` call becomes the image list argument of `Tasks.LocalSearch`. The podman session itself is not modelled.
- Code with no logic beyond I/O or foreign calls is not part of this model:
  - the connectors (`rapidctl/bootstrap/connectors/`), which cover environment variables, the file system and `podman machine` subprocesses;
  - `PodmanCLI` (`rapidctl/cli/__init__.py`);
  - `pull_container` and `find_container` in `rapidctl/cli/actions.py`; `find_container` is `local_search`;
  - `rapidctl/cli/main.py`, which is command-line orchestration with no retry loop;
  - `rapidctl/errors/`.
- Functions that the tests call but that are absent from the source are not part of this model:
  - version-state persistence;
  - `get_local_image_tags`, `list_local_versions` and `find_newer_version`;
  - `CtlClient.get_version`, `set_version` and `_load_persisted_version`;
  - registry authentication.
- The acquisition state machine, the preference store and the newest-version selection are described for the system but have no code in these files. They are not part of this model.

## Findings

| source | as written | input that shows it | evidently intended | confidence | as-written member | corrected member |
|---|---|---|---|---|---|---|
| rapidctl/bootstrap/client.py:75 | The domain regex ends in `$`. Under `re.match`, `$` also matches just before a newline that ends the string, so a first segment `"evil.com\n"` passes the domain check and is kept verbatim. | `"evil.com\n/x"` sanitises to `"evil.com\n/x"`, which still contains a newline | The pattern anchored at the very end of the segment (`\Z` or `re.fullmatch`), so the reference is rejected. Every accepted output is then free of whitespace | not executed | ClientExamples.NewlineSurvivesAsWritten | Client.SanitizedIsSafe |
