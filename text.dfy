/**
  Python string built-ins used by the core, over `seq<char>`: ASCII
  character classes, `str.strip()`, `str.split(sep)`, `sep.join(parts)`,
  deletion of the characters outside a class (`re.sub(r'[^...]', '', s)`),
  `str < str` (code-point lexicographic order) and `int(s)` on digit strings.
*/
module Text {

  // ---------------------------------------------------------------------
  // Character classes (ASCII, as the regular expressions of the core spell them)
  // ---------------------------------------------------------------------

  predicate IsDigit(c: char) { '0' <= c <= '9' }

  predicate IsLetter(c: char) { 'a' <= c <= 'z' || 'A' <= c <= 'Z' }

  predicate IsAlnum(c: char) { IsDigit(c) || IsLetter(c) }

  /** The characters `str.strip()` removes (Python's `str.isspace`). */
  predicate IsSpace(c: char)
  {
    ('\U{9}' <= c <= '\U{D}') || ('\U{1C}' <= c <= '\U{1F}') || c == ' '
    || c == '\U{85}' || c == '\U{A0}' || c == '\U{1680}'
    || ('\U{2000}' <= c <= '\U{200A}') || c == '\U{2028}' || c == '\U{2029}'
    || c == '\U{202F}' || c == '\U{205F}' || c == '\U{3000}'
  }

  predicate AllDigits(s: string)
  {
    forall k :: 0 <= k < |s| ==> IsDigit(s[k])
  }

  // ---------------------------------------------------------------------
  // str.strip()
  // ---------------------------------------------------------------------

  /** `s.lstrip()`: the suffix of `s` left after every leading space. */
  function StripLeft(s: string): (r: string)
    ensures |r| <= |s| && r == s[|s| - |r|..]
    ensures forall k :: 0 <= k < |s| - |r| ==> IsSpace(s[k])
    ensures r == [] || !IsSpace(r[0])
  {
    if |s| > 0 && IsSpace(s[0]) then StripLeft(s[1..]) else s
  }

  /** `s.rstrip()`: the prefix of `s` left after every trailing space. */
  function StripRight(s: string): (r: string)
    ensures |r| <= |s| && r == s[..|r|]
    ensures forall k :: |r| <= k < |s| ==> IsSpace(s[k])
    ensures r == [] || !IsSpace(r[|r| - 1])
  {
    if |s| > 0 && IsSpace(s[|s| - 1]) then StripRight(s[..|s| - 1]) else s
  }

  /** `r` is `s` with the `i` characters before it and the ones after it, all spaces, removed. */
  predicate Trimmed(s: string, r: string, i: int)
  {
    && 0 <= i && i + |r| <= |s| && r == s[i..i + |r|]
    && (forall k :: 0 <= k < i ==> IsSpace(s[k]))
    && (forall k :: i + |r| <= k < |s| ==> IsSpace(s[k]))
  }

  /** `s.strip()`: the part of `s` left between its leading and its trailing spaces. */
  function Strip(s: string): (r: string)
    ensures r == [] || (!IsSpace(r[0]) && !IsSpace(r[|r| - 1]))
    ensures |r| <= |s|
  {
    StripRight(StripLeft(s))
  }

  /**
    `s.strip()` removes whitespace only, and all of it at both ends: the result
    is a slice of `s` and everything outside that slice is whitespace.
  */
  lemma StripTrims(s: string)
    ensures exists i :: Trimmed(s, Strip(s), i)
  {
    var l := StripLeft(s);
    assert Strip(s) == StripRight(l);
    TrimmedOf(s, l, StripRight(l), |s| - |l|);
  }

  /** Spaces removed on the left, then spaces removed on the right. */
  lemma TrimmedOf(s: string, l: string, r: string, i: int)
    requires 0 <= i <= |s| && l == s[i..] && forall k :: 0 <= k < i ==> IsSpace(s[k])
    requires |r| <= |l| && r == l[..|r|] && forall k :: |r| <= k < |l| ==> IsSpace(l[k])
    ensures Trimmed(s, r, i)
  {
    assert r == s[i..i + |r|];
    forall k | i + |r| <= k < |s| ensures IsSpace(s[k]) {
      assert s[k] == l[k - i];
    }
  }

  /** Stripping adds no character: one that `s` lacks, its strip lacks too. */
  lemma StripExcludes(s: string, c: char)
    requires c !in s
    ensures c !in Strip(s)
  {
    var r := Strip(s);
    StripTrims(s);
    var i :| Trimmed(s, r, i);
    forall k | 0 <= k < |r| ensures r[k] != c {
      assert r[k] == s[i + k];
    }
  }

  /** A string that neither starts nor ends with a space is its own strip. */
  lemma StripUnchanged(s: string)
    requires s == [] || (!IsSpace(s[0]) && !IsSpace(s[|s| - 1]))
    ensures Strip(s) == s
  {
  }

  /** A string of spaces strips to nothing. */
  lemma {:induction false} AllSpacesStrip(s: string)
    requires forall k :: 0 <= k < |s| ==> IsSpace(s[k])
    ensures Strip(s) == []
    decreases |s|
  {
    if s != [] {
      AllSpacesStrip(s[1..]);
    }
  }

  // ---------------------------------------------------------------------
  // Substring search and character deletion
  // ---------------------------------------------------------------------

  /** Python's `t in s` for strings. */
  predicate HasSubstring(s: string, t: string)
    decreases |s|
  {
    |t| <= |s| && (s[..|t|] == t || HasSubstring(s[1..], t))
  }

  /** `re.sub(r'[^<class>]', '', s)`: the characters of `s` that `keep` accepts, in order. */
  function Filter(s: string, keep: char -> bool): (r: string)
    ensures |r| <= |s|
    ensures forall k :: 0 <= k < |r| ==> keep(r[k])
    ensures (forall k :: 0 <= k < |s| ==> keep(s[k])) ==> r == s
    ensures r == [] <==> forall k :: 0 <= k < |s| ==> !keep(s[k])
  {
    if s == [] then []
    else if keep(s[0]) then [s[0]] + Filter(s[1..], keep)
    else Filter(s[1..], keep)
  }

  /** Filtering distributes over concatenation. */
  lemma {:induction false} FilterConcat(a: string, b: string, keep: char -> bool)
    ensures Filter(a + b, keep) == Filter(a, keep) + Filter(b, keep)
    decreases |a|
  {
    if a == [] {
      assert a + b == b;
    } else {
      assert (a + b)[0] == a[0];
      assert (a + b)[1..] == a[1..] + b;
      FilterConcat(a[1..], b, keep);
    }
  }

  // ---------------------------------------------------------------------
  // str.split(sep) and sep.join(parts)
  // ---------------------------------------------------------------------

  /** `s.split(sep)`: the pieces of `s` between occurrences of `sep` (at least one, possibly empty). */
  function Split(s: string, sep: char): (r: seq<string>)
    ensures |r| >= 1
    ensures forall i :: 0 <= i < |r| ==> sep !in r[i]
    decreases |s|
  {
    if s == [] then [""]
    else
      var rest := Split(s[1..], sep);
      if s[0] == sep then [""] + rest
      else [[s[0]] + rest[0]] + rest[1..]
  }

  /** Splitting adds no character: one that `s` lacks, every piece lacks too. */
  lemma {:induction false} SplitExcludes(s: string, sep: char, c: char)
    requires c !in s
    ensures forall i :: 0 <= i < |Split(s, sep)| ==> c !in Split(s, sep)[i]
    decreases |s|
  {
    if s != [] {
      assert c !in s[1..] by {
        forall k | 0 <= k < |s| - 1 ensures s[1..][k] != c { assert s[1..][k] == s[k + 1]; }
      }
      SplitExcludes(s[1..], sep, c);
    }
  }

  /** `sep.join(parts)` */
  function Join(parts: seq<string>, sep: char): string
  {
    if |parts| == 0 then ""
    else if |parts| == 1 then parts[0]
    else parts[0] + [sep] + Join(parts[1..], sep)
  }

  /** Joining the pieces of a split gives the string back. */
  lemma {:induction false} JoinSplit(s: string, sep: char)
    ensures Join(Split(s, sep), sep) == s
    decreases |s|
  {
    if s != [] {
      var rest := Split(s[1..], sep);
      JoinSplit(s[1..], sep);
      if s[0] == sep {
        assert Split(s, sep) == [""] + rest;
        assert ([""] + rest)[1..] == rest;
      } else {
        var r := Split(s, sep);
        assert r == [[s[0]] + rest[0]] + rest[1..];
        if |rest| == 1 {
          assert Join(r, sep) == [s[0]] + rest[0];
        } else {
          assert r[1..] == rest[1..];
          assert Join(r, sep) == [s[0]] + rest[0] + [sep] + Join(rest[1..], sep);
        }
      }
    }
  }

  /** Splitting a piece without separators that is followed by more text. */
  lemma {:induction false} SplitPrefix(p: string, sep: char, t: string)
    requires sep !in p
    ensures Split(p + [sep] + t, sep) == [p] + Split(t, sep)
    decreases |p|
  {
    if p == [] {
      assert p + [sep] + t == [sep] + t;
      assert ([sep] + t)[1..] == t;
    } else {
      SplitPrefix(p[1..], sep, t);
      assert (p + [sep] + t)[1..] == p[1..] + [sep] + t;
      assert [p[0]] + p[1..] == p;
    }
  }

  /** A string without separators splits into itself alone. */
  lemma {:induction false} SplitNoSep(p: string, sep: char)
    requires sep !in p
    ensures Split(p, sep) == [p]
    decreases |p|
  {
    if p != [] {
      SplitNoSep(p[1..], sep);
      assert [p[0]] + p[1..] == p;
    }
  }

  /** Splitting joined separator-free pieces gives the pieces back. */
  lemma {:induction false} SplitJoin(parts: seq<string>, sep: char)
    requires |parts| >= 1
    requires forall i :: 0 <= i < |parts| ==> sep !in parts[i]
    ensures Split(Join(parts, sep), sep) == parts
    decreases |parts|
  {
    if |parts| == 1 {
      SplitNoSep(parts[0], sep);
    } else {
      SplitJoin(parts[1..], sep);
      SplitPrefix(parts[0], sep, Join(parts[1..], sep));
      assert [parts[0]] + parts[1..] == parts;
    }
  }

  /** Every character of a join is a character of some piece or the separator. */
  lemma {:induction false} JoinChars(parts: seq<string>, sep: char, ok: char -> bool)
    requires ok(sep)
    requires forall i, k :: 0 <= i < |parts| && 0 <= k < |parts[i]| ==> ok(parts[i][k])
    ensures forall k :: 0 <= k < |Join(parts, sep)| ==> ok(Join(parts, sep)[k])
    decreases |parts|
  {
    if |parts| > 1 {
      JoinChars(parts[1..], sep, ok);
      var j := Join(parts, sep);
      var p0 := parts[0];
      var rest := Join(parts[1..], sep);
      assert j == p0 + [sep] + rest;
      forall k | 0 <= k < |j| ensures ok(j[k]) {
        if k < |p0| {
          assert j[k] == parts[0][k];
        } else if k == |p0| {
          assert j[k] == sep;
        } else {
          assert j[k] == rest[k - |p0| - 1];
        }
      }
    }
  }

  /** No two `sep` in a row anywhere in `s`. */
  predicate NoDoubleSep(s: string, sep: char)
  {
    forall k :: 0 <= k < |s| - 1 ==> !(s[k] == sep && s[k + 1] == sep)
  }

  /** Non-empty pieces without separators join into a string with no two separators in a row. */
  lemma {:induction false} JoinNoDoubleSep(parts: seq<string>, sep: char)
    requires forall i :: 0 <= i < |parts| ==> parts[i] != [] && sep !in parts[i]
    ensures NoDoubleSep(Join(parts, sep), sep)
    decreases |parts|
  {
    if |parts| > 1 {
      JoinNoDoubleSep(parts[1..], sep);
      var j := Join(parts, sep);
      var p0 := parts[0];
      var rest := Join(parts[1..], sep);
      assert j == p0 + [sep] + rest;
      assert rest != [] && rest[0] != sep by {
        assert parts[1] != [] && sep !in parts[1];
        if |parts[1..]| == 1 {
          assert rest == parts[1];
        } else {
          assert rest == parts[1] + [sep] + Join(parts[2..], sep);
          assert rest[0] == parts[1][0];
        }
      }
      forall k | 0 <= k < |j| - 1 ensures !(j[k] == sep && j[k + 1] == sep) {
        if k < |p0| {
          assert j[k] == p0[k] && p0[k] in p0;
          assert p0[k] != sep;
        } else if k == |p0| {
          assert j[k + 1] == rest[0];
        } else {
          var m := k - |p0| - 1;
          assert 0 <= m < |rest| - 1;
          assert j[k] == rest[m] && j[k + 1] == rest[m + 1];
          assert !(rest[m] == sep && rest[m + 1] == sep);
        }
      }
    }
  }

  /** A string with no two `/` in a row contains no `://`. */
  lemma {:induction false} NoDoubleSlashNoScheme(s: string)
    requires NoDoubleSep(s, '/')
    ensures !HasSubstring(s, "://")
    decreases |s|
  {
    if |s| >= 3 {
      assert s[..3] != "://" by {
        assert !(s[1] == '/' && s[2] == '/');
      }
      NoDoubleSlashNoScheme(s[1..]);
    }
  }

  /** A string without `:` contains no `://`. */
  lemma {:induction false} NoColonNoScheme(s: string)
    requires ':' !in s
    ensures !HasSubstring(s, "://")
    decreases |s|
  {
    if |s| >= 3 {
      assert s[..3] != "://" by {
        assert s[0] in s;
      }
      NoColonNoScheme(s[1..]);
    }
  }

  // ---------------------------------------------------------------------
  // Python's `<` on str: code-point lexicographic order
  // ---------------------------------------------------------------------

  /** `a < b` on Python strings: first differing code point, or `a` a proper prefix of `b`. */
  predicate StrLess(a: string, b: string)
    decreases |a|
  {
    if a == [] then b != []
    else if b == [] then false
    else if a[0] != b[0] then a[0] < b[0]
    else StrLess(a[1..], b[1..])
  }

  lemma {:induction false} StrLessIrreflexive(a: string)
    ensures !StrLess(a, a)
    decreases |a|
  {
    if a != [] { StrLessIrreflexive(a[1..]); }
  }

  lemma {:induction false} StrLessAsymmetric(a: string, b: string)
    requires StrLess(a, b)
    ensures !StrLess(b, a)
    decreases |a|
  {
    if a != [] && b != [] && a[0] == b[0] { StrLessAsymmetric(a[1..], b[1..]); }
  }

  /** Two different strings are always ordered one way or the other. */
  lemma {:induction false} StrLessTotal(a: string, b: string)
    requires a != b
    ensures StrLess(a, b) || StrLess(b, a)
    decreases |a|
  {
    if a != [] && b != [] && a[0] == b[0] {
      assert a == [a[0]] + a[1..] && b == [b[0]] + b[1..];
      StrLessTotal(a[1..], b[1..]);
    }
  }

  lemma {:induction false} StrLessTransitive(a: string, b: string, c: string)
    requires StrLess(a, b) && StrLess(b, c)
    ensures StrLess(a, c)
    decreases |a|
  {
    if a != [] && a[0] == b[0] && b[0] == c[0] {
      StrLessTransitive(a[1..], b[1..], c[1..]);
    }
  }

  /** Exactly one of `a < b`, `a == b`, `b < a` holds. */
  lemma StrTrichotomy(a: string, b: string)
    ensures !StrLess(a, a)
    ensures a != b ==> (StrLess(a, b) || StrLess(b, a))
    ensures StrLess(a, b) ==> !StrLess(b, a)
  {
    StrLessIrreflexive(a);
    if a != b { StrLessTotal(a, b); }
    if StrLess(a, b) { StrLessAsymmetric(a, b); }
  }

  /** `(a > b) - (a < b)` */
  function StrCmp(a: string, b: string): (r: int)
    ensures r == -1 <==> StrLess(a, b)
    ensures r == 0 <==> a == b
    ensures r == 1 <==> StrLess(b, a)
  {
    StrTrichotomy(a, b);
    (if StrLess(b, a) then 1 else 0) - (if StrLess(a, b) then 1 else 0)
  }

  // ---------------------------------------------------------------------
  // Decimal digits: \d+ runs, int(s), str(n)
  // ---------------------------------------------------------------------

  /** Length of the longest all-digit prefix of `s` (what a greedy `\d+` consumes). */
  function DigitRun(s: string): (n: nat)
    ensures n <= |s|
    ensures forall k :: 0 <= k < n ==> IsDigit(s[k])
    ensures n == |s| || !IsDigit(s[n])
    decreases |s|
  {
    if s != [] && IsDigit(s[0]) then 1 + DigitRun(s[1..]) else 0
  }

  /** A run of `n` digits that is followed by a non-digit, or by the end, is the whole of `\d+`. */
  lemma {:induction false} DigitRunAt(s: string, n: nat)
    requires n <= |s| && (forall k :: 0 <= k < n ==> IsDigit(s[k])) && (n == |s| || !IsDigit(s[n]))
    ensures DigitRun(s) == n
    decreases n
  {
    if n > 0 {
      DigitRunAt(s[1..], n - 1);
    }
  }

  lemma {:induction false} DigitRunAppend(d: string, t: string)
    requires AllDigits(d)
    ensures DigitRun(d + t) == |d| + DigitRun(t)
    decreases |d|
  {
    if d != [] {
      assert (d + t)[1..] == d[1..] + t;
      DigitRunAppend(d[1..], t);
    } else {
      assert d + t == t;
    }
  }

  /** `int(s)` for a string of ASCII digits (leading zeros allowed). */
  function Value(s: string): nat
    requires AllDigits(s)
    decreases |s|
  {
    if s == [] then 0 else 10 * Value(s[..|s| - 1]) + (s[|s| - 1] as int - '0' as int)
  }

  /** `str(n)`: the canonical decimal digits of `n`. */
  function Digits(n: nat): (s: string)
    ensures s != [] && AllDigits(s)
  {
    if n < 10 then [('0' as int + n) as char]
    else Digits(n / 10) + [('0' as int + n % 10) as char]
  }

  /** `int(str(n)) == n` */
  lemma {:induction false} ValueDigits(n: nat)
    ensures Value(Digits(n)) == n
  {
    if n >= 10 {
      ValueDigits(n / 10);
      var s := Digits(n);
      assert s[..|s| - 1] == Digits(n / 10);
    }
  }
}
