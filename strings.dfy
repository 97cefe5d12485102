/**
 * The Python `str` builtins the core relies on: `strip()`, `lower()`,
 * `find(...) == -1`, `split(sep)`, `sep.join(...)`, `replace(old, new)` and
 * the ordering `<=` that pandas uses when it sorts an index of strings.
 */
module Strings {

  /** Python's `str.isspace()` for one code point: the characters `str.strip()` removes. */
  predicate IsSpace(c: char) {
    var n := c as int;
    (0x09 <= n <= 0x0D) || (0x1C <= n <= 0x20) || n == 0x85 || n == 0xA0 || n == 0x1680
    || (0x2000 <= n <= 0x200A) || n == 0x2028 || n == 0x2029 || n == 0x202F
    || n == 0x205F || n == 0x3000
  }

  /** `s.lstrip()`: `s` without its leading whitespace. */
  function TrimLeft(s: string): (r: string)
    ensures |r| <= |s|
    decreases |s|
  {
    if s != [] && IsSpace(s[0]) then TrimLeft(s[1..]) else s
  }

  /** `s.rstrip()`: `s` without its trailing whitespace. */
  function TrimRight(s: string): (r: string)
    ensures |r| <= |s|
    decreases |s|
  {
    if s != [] && IsSpace(s[|s| - 1]) then TrimRight(s[..|s| - 1]) else s
  }

  /** `s.strip()`: `s` without its leading and its trailing whitespace. */
  function Strip(s: string): (r: string)
    ensures |r| <= |s|
  {
    TrimRight(TrimLeft(s))
  }

  /** `lstrip()` keeps a suffix, and what it drops is whitespace. */
  lemma {:induction false} TrimLeftFacts(s: string)
    ensures var r := TrimLeft(s);
      && r == s[|s| - |r|..]
      && (r == [] || !IsSpace(r[0]))
      && forall k :: 0 <= k < |s| - |r| ==> IsSpace(s[k])
    decreases |s|
  {
    if s != [] && IsSpace(s[0]) {
      TrimLeftFacts(s[1..]);
    }
  }

  /** `rstrip()` keeps a prefix, and what it drops is whitespace. */
  lemma {:induction false} TrimRightFacts(s: string)
    ensures var r := TrimRight(s);
      && r == s[..|r|]
      && (r == [] || !IsSpace(r[|r| - 1]))
      && forall k :: |r| <= k < |s| ==> IsSpace(s[k])
    decreases |s|
  {
    if s != [] && IsSpace(s[|s| - 1]) {
      TrimRightFacts(s[..|s| - 1]);
    }
  }

  /**
   * What `strip()` promises: exactly the whitespace at both ends goes. The
   * result has no whitespace at either end, no character that `s` lacks,
   * every character of `s` that is not whitespace, and a string that has no
   * whitespace at either end is its own strip.
   */
  lemma StripFacts(s: string)
    ensures var r := Strip(s);
      && (r == [] || (!IsSpace(r[0]) && !IsSpace(r[|r| - 1])))
      && (forall c :: c in r ==> c in s)
      && (forall k :: 0 <= k < |s| && !IsSpace(s[k]) ==> s[k] in r)
      && ((s == [] || (!IsSpace(s[0]) && !IsSpace(s[|s| - 1]))) ==> r == s)
  {
    var left := TrimLeft(s);
    var r := TrimRight(left);
    var cut := |s| - |left|;
    TrimLeftFacts(s);
    TrimRightFacts(left);
    assert left == s[cut..];
    assert r == left[..|r|];
    assert r == [] || (!IsSpace(r[0]) && !IsSpace(r[|r| - 1])) by {
      if r != [] {
        assert r[0] == left[0];
      }
    }
    forall c | c in r ensures c in s {
      var j :| 0 <= j < |r| && r[j] == c;
      assert left[j] == c;
      assert s[cut + j] == c;
    }
    forall k | 0 <= k < |s| && !IsSpace(s[k]) ensures s[k] in r {
      assert k >= cut;
      assert s[k] == left[k - cut];
      assert k - cut < |r|;
      assert r[k - cut] == s[k];
    }
    if s != [] && !IsSpace(s[0]) && !IsSpace(s[|s| - 1]) {
      assert left == s;
      assert r == s;
    }
  }

  /** Stripping a string without the character `c` leaves a string without it. */
  lemma StripAvoids(s: string, c: char)
    requires c !in s
    ensures c !in Strip(s)
  {
    StripFacts(s);
  }

  /** ASCII case mapping of one character (`str.lower()` restricted to A-Z). */
  function LowerChar(c: char): char {
    if 'A' <= c <= 'Z' then (c as int + 32) as char else c
  }

  /** `s.lower()`, character by character. */
  function Lower(s: string): (r: string)
    ensures |r| == |s|
  {
    if s == [] then [] else [LowerChar(s[0])] + Lower(s[1..])
  }

  /** Lowercasing never creates nor removes a non-letter such as `:` or `,`. */
  lemma {:induction false} LowerKeepsCount(s: string, c: char)
    requires !('A' <= c <= 'Z') && !('a' <= c <= 'z')
    ensures multiset(Lower(s))[c] == multiset(s)[c]
  {
    if s != [] {
      LowerKeepsCount(s[1..], c);
      assert s == [s[0]] + s[1..];
      assert (LowerChar(s[0]) == c) == (s[0] == c);
    }
  }

  /** A string without upper-case ASCII letters is its own lowercase. */
  lemma {:induction false} LowerNoUpper(s: string)
    requires forall k :: 0 <= k < |s| ==> !('A' <= s[k] <= 'Z')
    ensures Lower(s) == s
  {
    if s != [] {
      LowerNoUpper(s[1..]);
      assert s == [s[0]] + s[1..];
    }
  }

  /** `s.startswith(prefix)`. */
  predicate StartsWith(s: string, prefix: string) {
    |prefix| <= |s| && s[..|prefix|] == prefix
  }

  /** `pat in s`, equivalently `s.find(pat) != -1`. */
  predicate Contains(s: string, pat: string)
    decreases |s|
  {
    StartsWith(s, pat) || (s != [] && Contains(s[1..], pat))
  }

  /**
   * `s.split(sep)` for a non-empty separator: the pieces between the
   * leftmost non-overlapping occurrences of `sep`; never an empty list.
   */
  function Split(s: string, sep: string): (r: seq<string>)
    requires sep != []
    ensures |r| >= 1
    decreases |s|
  {
    if |s| < |sep| then [s]
    else if s[..|sep|] == sep then [[]] + Split(s[|sep|..], sep)
    else
      var rest := Split(s[1..], sep);
      [[s[0]] + rest[0]] + rest[1..]
  }

  /** `sep.join(parts)`. */
  function Join(parts: seq<string>, sep: string): string {
    if parts == [] then []
    else if |parts| == 1 then parts[0]
    else parts[0] + sep + Join(parts[1..], sep)
  }

  /** `s.replace(old, new)`, which, for a non-empty `old`, equals `new.join(s.split(old))`. */
  function Replace(s: string, pat: string, rep: string): string
    requires pat != []
  {
    Join(Split(s, pat), rep)
  }

  /** Splitting and joining back with the same separator gives the original string. */
  lemma {:induction false} SplitJoin(s: string, sep: string)
    requires sep != []
    ensures Join(Split(s, sep), sep) == s
    decreases |s|
  {
    if |s| < |sep| {
    } else if s[..|sep|] == sep {
      SplitJoin(s[|sep|..], sep);
      JoinCons([], Split(s[|sep|..], sep), sep);
      assert s == sep + s[|sep|..];
    } else {
      var rest := Split(s[1..], sep);
      SplitJoin(s[1..], sep);
      JoinCons([s[0]] + rest[0], rest[1..], sep);
      JoinCons(rest[0], rest[1..], sep);
      assert [rest[0]] + rest[1..] == rest;
      assert s == [s[0]] + s[1..];
    }
  }

  /** Unfolding `Join` on a first piece, for a list of any length. */
  lemma JoinCons(p: string, rest: seq<string>, sep: string)
    ensures Join([p] + rest, sep) == p + (if rest == [] then [] else sep + Join(rest, sep))
  {
    assert ([p] + rest)[1..] == rest;
  }

  /** A pattern whose first character is missing from `s` does not occur in it. */
  lemma {:induction false} AbsentFirst(s: string, pat: string)
    requires pat != [] && pat[0] !in s
    ensures !Contains(s, pat)
    decreases |s|
  {
    if s != [] {
      assert s[0] in s;
      assert s[1..] == s[1..] && forall c :: c in s[1..] ==> c in s;
      AbsentFirst(s[1..], pat);
    }
  }

  /** A string without the separator splits into itself alone. */
  lemma {:induction false} SplitAbsent(s: string, sep: string)
    requires sep != [] && !Contains(s, sep)
    ensures Split(s, sep) == [s]
    decreases |s|
  {
    if |s| >= |sep| {
      assert s != [];
      SplitAbsent(s[1..], sep);
      assert s == [s[0]] + s[1..];
    }
  }

  /** A string shorter than the pattern does not contain it. */
  lemma {:induction false} ShortAbsent(s: string, pat: string)
    requires |s| < |pat|
    ensures !Contains(s, pat)
    decreases |s|
  {
    if s != [] {
      ShortAbsent(s[1..], pat);
    }
  }

  /** The first piece of a split is a prefix of the string. */
  lemma {:induction false} SplitFirstPrefix(s: string, sep: string)
    requires sep != []
    ensures var p := Split(s, sep)[0]; |p| <= |s| && s[..|p|] == p
    decreases |s|
  {
    if |s| >= |sep| && s[..|sep|] != sep {
      SplitFirstPrefix(s[1..], sep);
    }
  }

  /** A prefix of a string that does not start with `pat` does not start with it either. */
  lemma PrefixNotStarting(s: string, p: string, pat: string)
    requires |p| <= |s| && s[..|p|] == p && !StartsWith(s, pat)
    ensures !StartsWith(p, pat)
  {
    if |pat| <= |p| {
      assert s[..|pat|] == p[..|pat|];
    }
  }

  /** No piece of a split contains the separator: every occurrence is split off. */
  lemma {:induction false} SplitNoSep(s: string, sep: string)
    requires sep != []
    ensures forall p :: p in Split(s, sep) ==> !Contains(p, sep)
    decreases |s|
  {
    if |s| < |sep| {
      ShortAbsent(s, sep);
    } else if s[..|sep|] == sep {
      SplitNoSep(s[|sep|..], sep);
      ShortAbsent([], sep);
    } else {
      var rest := Split(s[1..], sep);
      SplitNoSep(s[1..], sep);
      SplitFirstPrefix(s[1..], sep);
      var first := [s[0]] + rest[0];
      assert s[..|first|] == first;
      PrefixNotStarting(s, first, sep);
      assert first[1..] == rest[0];
      assert !Contains(first, sep);
      forall p | p in Split(s, sep) ensures !Contains(p, sep) {
        if p != first {
          assert p in rest[1..];
        }
      }
    }
  }

  /**
   * An occurrence of `pat` in `a + [c] + b`, where `c` is not in `pat`,
   * lies inside `a` or inside `b`.
   */
  lemma {:induction false} ContainsAround(a: string, c: char, b: string, pat: string)
    requires pat != [] && c !in pat
    requires Contains(a + [c] + b, pat)
    ensures Contains(a, pat) || Contains(b, pat)
    decreases |a|
  {
    var s := a + [c] + b;
    if a == [] {
      assert s[0] == c;
      assert !StartsWith(s, pat);
      assert s[1..] == b;
    } else if StartsWith(s, pat) {
      assert s[|a|] == c;
      assert |pat| <= |a|;
      assert s[..|pat|] == a[..|pat|];
    } else {
      assert s[1..] == a[1..] + [c] + b;
      ContainsAround(a[1..], c, b, pat);
    }
  }

  /** Joining pieces that avoid `pat` with a character outside `pat` does not create `pat`. */
  lemma {:induction false} JoinAvoids(parts: seq<string>, c: char, pat: string)
    requires pat != [] && c !in pat
    requires forall p :: p in parts ==> !Contains(p, pat)
    ensures !Contains(Join(parts, [c]), pat)
    decreases |parts|
  {
    if parts == [] {
      ShortAbsent([], pat);
    } else if |parts| > 1 {
      JoinAvoids(parts[1..], c, pat);
      assert parts[0] in parts;
      assert Join(parts, [c]) == parts[0] + [c] + Join(parts[1..], [c]);
      if Contains(Join(parts, [c]), pat) {
        ContainsAround(parts[0], c, Join(parts[1..], [c]), pat);
      }
    } else {
      assert parts[0] in parts;
    }
  }

  /** Every character of every piece of a split is a character of the string. */
  lemma {:induction false} SplitChars(s: string, sep: string)
    requires sep != []
    ensures forall p, c :: p in Split(s, sep) && c in p ==> c in s
    decreases |s|
  {
    if |s| >= |sep| {
      if s[..|sep|] == sep {
        SplitChars(s[|sep|..], sep);
      } else {
        SplitChars(s[1..], sep);
        var rest := Split(s[1..], sep);
        forall p, c | p in Split(s, sep) && c in p ensures c in s {
          if p == [s[0]] + rest[0] {
            assert c == s[0] || c in rest[0];
          } else {
            assert p in rest[1..];
          }
        }
      }
    }
  }

  /**
   * Splitting on one character gives one more piece than there are
   * occurrences of that character, and no piece contains it.
   */
  lemma {:induction false} SplitOnChar(s: string, c: char)
    ensures |Split(s, [c])| == multiset(s)[c] + 1
    ensures forall p :: p in Split(s, [c]) ==> c !in p
    decreases |s|
  {
    if s != [] {
      SplitOnChar(s[1..], c);
      assert s == [s[0]] + s[1..];
      assert multiset(s) == multiset([s[0]]) + multiset(s[1..]);
      if s[..1] != [c] {
        var rest := Split(s[1..], [c]);
        assert s[0] != c;
        forall p | p in Split(s, [c]) ensures c !in p {
          if p != [s[0]] + rest[0] {
            assert p in rest[1..];
          }
        }
      }
    }
  }

  /** Splitting `a + [c] + b` on `c`, where `a` has no `c`, peels `a` off as the first piece. */
  lemma {:induction false} SplitAfterFirst(a: string, c: char, b: string)
    requires c !in a
    ensures Split(a + [c] + b, [c]) == [a] + Split(b, [c])
    decreases |a|
  {
    var s := a + [c] + b;
    if a == [] {
      assert s[..1] == [c];
      assert s[1..] == b;
    } else {
      assert s[0] == a[0] && a[0] in a;
      assert s[..1] != [c];
      assert s[1..] == a[1..] + [c] + b;
      SplitAfterFirst(a[1..], c, b);
      assert [s[0]] + a[1..] == a;
    }
  }

  /** Joining pieces that do not contain `c` with `c`, then splitting on `c`, gives the pieces back. */
  lemma {:induction false} JoinSplit(parts: seq<string>, c: char)
    requires parts != []
    requires forall p :: p in parts ==> c !in p
    ensures Split(Join(parts, [c]), [c]) == parts
    decreases |parts|
  {
    assert parts[0] in parts;
    if |parts| == 1 {
      AbsentFirst(parts[0], [c]);
      SplitAbsent(parts[0], [c]);
    } else {
      assert forall p :: p in parts[1..] ==> p in parts;
      JoinSplit(parts[1..], c);
      assert Join(parts, [c]) == parts[0] + [c] + Join(parts[1..], [c]);
      SplitAfterFirst(parts[0], c, Join(parts[1..], [c]));
      assert [parts[0]] + parts[1..] == parts;
    }
  }

  /** Joining one more piece on the right. */
  lemma {:induction false} JoinSnoc(parts: seq<string>, p: string, sep: string)
    requires parts != []
    ensures Join(parts + [p], sep) == Join(parts, sep) + sep + p
    decreases |parts|
  {
    if |parts| > 1 {
      assert (parts + [p])[1..] == parts[1..] + [p];
      JoinSnoc(parts[1..], p, sep);
    }
  }

  /**
   * Python's string comparison `a <= b`: lexicographic by code point, a
   * proper prefix coming first.
   */
  predicate LexLe(a: string, b: string)
    decreases |a|
  {
    a == [] || (b != [] && (a[0] < b[0] || (a[0] == b[0] && LexLe(a[1..], b[1..]))))
  }

  lemma {:induction false} LexLeTotal(a: string, b: string)
    ensures LexLe(a, b) || LexLe(b, a)
    decreases |a|
  {
    if a != [] && b != [] && a[0] == b[0] {
      LexLeTotal(a[1..], b[1..]);
    }
  }

  lemma {:induction false} LexLeAntisymmetric(a: string, b: string)
    requires LexLe(a, b) && LexLe(b, a)
    ensures a == b
    decreases |a|
  {
    if a != [] {
      LexLeAntisymmetric(a[1..], b[1..]);
      assert a == [a[0]] + a[1..] && b == [b[0]] + b[1..];
    }
  }

  lemma {:induction false} LexLeTransitive(a: string, b: string, c: string)
    requires LexLe(a, b) && LexLe(b, c)
    ensures LexLe(a, c)
    decreases |a|
  {
    if a != [] && a[0] == b[0] && b[0] == c[0] {
      LexLeTransitive(a[1..], b[1..], c[1..]);
    }
  }
}
