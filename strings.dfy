/** Models of the Python `str` operations the converter relies on:
    `isspace`, `strip`, `split`, `replace` and prefix slicing. */
module Strings {

  /** Python's `str.isspace()` on one character; a `\s` in a `str` regular
      expression matches exactly these characters too. */
  predicate IsSpace(c: char) {
    || ('\t' <= c <= '\r')
    || ('\U{1C}' <= c <= '\U{1F}')
    || c == ' '
    || c == '\U{85}'
    || c == '\U{A0}'
    || c == '\U{1680}'
    || ('\U{2000}' <= c <= '\U{200A}')
    || c == '\U{2028}'
    || c == '\U{2029}'
    || c == '\U{202F}'
    || c == '\U{205F}'
    || c == '\U{3000}'
  }

  predicate AllSpace(s: string) {
    forall i :: 0 <= i < |s| ==> IsSpace(s[i])
  }

  /** No whitespace at either end: what `strip()` produces. */
  predicate Trimmed(s: string) {
    s == [] || (!IsSpace(s[0]) && !IsSpace(s[|s| - 1]))
  }

  predicate StartsWith(s: string, p: string) {
    |p| <= |s| && s[..|p|] == p
  }

  /** `s.lstrip()`: the longest suffix that does not start with whitespace. */
  function TrimLeft(s: string): (r: string)
    ensures |r| <= |s| && r == s[|s| - |r|..]
    ensures r == [] || !IsSpace(r[0])
  {
    if s != [] && IsSpace(s[0]) then TrimLeft(s[1..]) else s
  }

  /** What `lstrip()` removes is whitespace. */
  lemma {:induction false} TrimLeftSpaces(s: string)
    ensures AllSpace(s[..|s| - |TrimLeft(s)|])
  {
    if s != [] && IsSpace(s[0]) {
      var r := TrimLeft(s[1..]);
      TrimLeftSpaces(s[1..]);
      assert s[..|s| - |r|] == [s[0]] + s[1..][..|s| - 1 - |r|];
      AllSpaceConcat([s[0]], s[1..][..|s| - 1 - |r|]);
    }
  }

  /** `s.rstrip()`: the longest prefix that does not end with whitespace. */
  function TrimRight(s: string): (r: string)
    ensures |r| <= |s| && r == s[..|r|]
    ensures r == [] || !IsSpace(r[|r| - 1])
  {
    if s != [] && IsSpace(s[|s| - 1]) then TrimRight(s[..|s| - 1]) else s
  }

  /** What `rstrip()` removes is whitespace. */
  lemma {:induction false} TrimRightSpaces(s: string)
    ensures AllSpace(s[|TrimRight(s)|..])
  {
    if s != [] && IsSpace(s[|s| - 1]) {
      var r := TrimRight(s[..|s| - 1]);
      TrimRightSpaces(s[..|s| - 1]);
      assert s[|r|..] == s[..|s| - 1][|r|..] + [s[|s| - 1]];
      AllSpaceConcat(s[..|s| - 1][|r|..], [s[|s| - 1]]);
    }
  }

  /** `s.strip()`: `s` is whitespace, then the result, then whitespace, and
      the result neither starts nor ends with whitespace. */
  function Strip(s: string): (r: string)
    ensures |r| <= |s|
    ensures Trimmed(r)
  {
    TrimRight(TrimLeft(s))
  }

  /** What `strip()` removes is whitespace at the two ends. */
  lemma StripSpec(s: string)
    ensures StripsTo(s, Strip(s))
  {
    var l := TrimLeft(s);
    var r := TrimRight(l);
    TrimLeftSpaces(s);
    TrimRightSpaces(l);
    SplitsAroundSuffix(s, l, r);
  }

  /** A prefix `r` of a suffix `l` of `s`, with whitespace before `l` and
      after `r`, splits `s` around `r`. */
  lemma SplitsAroundSuffix(s: string, l: string, r: string)
    requires |l| <= |s| && l == s[|s| - |l|..] && AllSpace(s[..|s| - |l|])
    requires |r| <= |l| && r == l[..|r|] && AllSpace(l[|r|..])
    ensures SplitsAround(s, r, |s| - |l|)
  {
    assert s[|s| - |l|..][..|r|] == s[|s| - |l|..|s| - |l| + |r|];
    assert s[|s| - |l| + |r|..] == l[|r|..];
  }

  /** `s` is some whitespace, then `r`, then some whitespace. */
  ghost predicate StripsTo(s: string, r: string) {
    exists i :: 0 <= i <= |s| - |r| && SplitsAround(s, r, i)
  }

  ghost predicate SplitsAround(s: string, r: string, i: int)
    requires 0 <= i <= |s| - |r|
  {
    s[i..i + |r|] == r && AllSpace(s[..i]) && AllSpace(s[i + |r|..])
  }

  /** The decomposition is unique: stripping whitespace padding off a
      trimmed text gives that text back. */
  lemma {:induction false} StripPadded(a: string, m: string, b: string)
    requires AllSpace(a) && AllSpace(b) && Trimmed(m)
    ensures Strip(a + m + b) == m
  {
    assert a + m + b == a + (m + b);
    if m == [] {
      assert a + m + b == a + b;
      AllSpaceConcat(a, b);
      TrimLeftAllSpace(a + b);
    } else {
      TrimLeftPadded(a, m + b);
      TrimRightPadded(m, b);
    }
  }

  lemma AllSpaceConcat(a: string, b: string)
    requires AllSpace(a) && AllSpace(b)
    ensures AllSpace(a + b)
  {
    assert forall i :: |a| <= i < |a + b| ==> (a + b)[i] == b[i - |a|];
  }

  lemma {:induction false} TrimLeftAllSpace(s: string)
    requires AllSpace(s)
    ensures TrimLeft(s) == []
  {
    if s != [] {
      TrimLeftAllSpace(s[1..]);
    }
  }

  lemma {:induction false} TrimLeftPadded(a: string, t: string)
    requires AllSpace(a) && (t == [] || !IsSpace(t[0]))
    ensures TrimLeft(a + t) == t
  {
    if a != [] {
      assert (a + t)[1..] == a[1..] + t;
      TrimLeftPadded(a[1..], t);
    } else {
      assert a + t == t;
    }
  }

  lemma {:induction false} TrimRightPadded(m: string, b: string)
    requires AllSpace(b) && (m == [] || !IsSpace(m[|m| - 1]))
    ensures TrimRight(m + b) == m
  {
    if b != [] {
      assert (m + b)[..|m + b| - 1] == m + b[..|b| - 1];
      TrimRightPadded(m, b[..|b| - 1]);
    } else {
      assert m + b == m;
    }
  }

  /** Stripping twice is stripping once. */
  lemma StripIdempotent(s: string)
    ensures Strip(Strip(s)) == Strip(s)
  {
    StripPadded([], Strip(s), []);
    assert [] + Strip(s) + [] == Strip(s);
  }

  /** A text strips to "" exactly when it is all whitespace. */
  lemma StripEmpty(s: string)
    ensures Strip(s) == [] <==> AllSpace(s)
  {
    var l := TrimLeft(s);
    assert s == s[..|s| - |l|] + l;
    if TrimRight(l) == [] {
      TrimLeftSpaces(s);
      TrimRightSpaces(l);
      assert l[0..] == l;
      AllSpaceConcat(s[..|s| - |l|], l);
    }
    if AllSpace(s) {
      TrimLeftAllSpace(s);
    }
  }

  /** `s.split(sep)` for a one-character separator: the pieces between
      separators, one more piece than there are separators. */
  function Split(s: string, sep: char): (r: seq<string>)
    ensures |r| >= 1
    ensures forall i :: 0 <= i < |r| ==> sep !in r[i]
  {
    if s == [] then [[]]
    else
      var rest := Split(s[1..], sep);
      if s[0] == sep then [[]] + rest
      else [[s[0]] + rest[0]] + rest[1..]
  }

  /** `sep.join(parts)`, the inverse of `Split`. */
  function Join(parts: seq<string>, sep: char): string
    requires |parts| >= 1
  {
    if |parts| == 1 then parts[0] else parts[0] + [sep] + Join(parts[1..], sep)
  }

  /** Joining the pieces gives the text back. */
  lemma {:induction false} JoinSplit(s: string, sep: char)
    ensures Join(Split(s, sep), sep) == s
  {
    if s != [] {
      var rest := Split(s[1..], sep);
      JoinSplit(s[1..], sep);
      if s[0] == sep {
        assert ([[]] + rest)[1..] == rest;
      } else {
        var r := [[s[0]] + rest[0]] + rest[1..];
        assert r[1..] == rest[1..];
        if |rest| > 1 {
          assert Join(rest, sep) == rest[0] + [sep] + Join(rest[1..], sep);
        }
      }
    }
  }

  /** Splitting a join of separator-free pieces gives the pieces back. */
  lemma {:induction false} SplitJoin(parts: seq<string>, sep: char)
    requires |parts| >= 1
    requires forall i :: 0 <= i < |parts| ==> sep !in parts[i]
    ensures Split(Join(parts, sep), sep) == parts
  {
    if |parts| == 1 {
      SplitFree(parts[0], sep);
    } else {
      SplitJoin(parts[1..], sep);
      SplitAfter(parts[0], Join(parts[1..], sep), sep);
      assert [parts[0]] + parts[1..] == parts;
    }
  }

  lemma {:induction false} SplitFree(s: string, sep: char)
    requires sep !in s
    ensures Split(s, sep) == [s]
  {
    if s != [] {
      SplitFree(s[1..], sep);
      assert [s[0]] + s[1..] == s;
    }
  }

  lemma {:induction false} SplitAfter(p: string, t: string, sep: char)
    requires sep !in p
    ensures Split(p + [sep] + t, sep) == [p] + Split(t, sep)
  {
    if p == [] {
      assert ([] + [sep] + t)[1..] == t;
    } else {
      assert (p + [sep] + t)[1..] == p[1..] + [sep] + t;
      SplitAfter(p[1..], t, sep);
      assert [p[0]] + p[1..] == p;
    }
  }

  /** Where in `Split(s, sep)` the character at index `k` ends up: every
      character of `s` other than `sep` lies in one of the pieces. */
  lemma {:induction false} SplitCovers(s: string, sep: char, k: nat) returns (j: nat, m: nat)
    requires k < |s| && s[k] != sep
    ensures j < |Split(s, sep)| && m < |Split(s, sep)[j]|
    ensures Split(s, sep)[j][m] == s[k]
  {
    var rest := Split(s[1..], sep);
    if k == 0 {
      j, m := 0, 0;
    } else {
      var j', m' := SplitCovers(s[1..], sep, k - 1);
      if s[0] == sep {
        j, m := j' + 1, m';
      } else if j' == 0 {
        j, m := 0, m' + 1;
      } else {
        j, m := j', m';
      }
    }
  }

  /** `s.replace(pat, rep)`: every leftmost, non-overlapping occurrence of
      `pat`, scanning left to right, becomes `rep`. */
  function Replace(s: string, pat: string, rep: string): string
    requires pat != []
    decreases |s|
  {
    if |s| < |pat| then s
    else if s[..|pat|] == pat then rep + Replace(s[|pat|..], pat, rep)
    else [s[0]] + Replace(s[1..], pat, rep)
  }

  /** Replacing one character everywhere removes it, unless the
      replacement brings it back. */
  lemma {:induction false} ReplaceRemoves(s: string, c: char, rep: string)
    requires c !in rep
    ensures c !in Replace(s, [c], rep)
  {
    if |s| >= 1 {
      ReplaceRemoves(s[1..], c, rep);
    }
  }

  /** A character in neither the text nor the replacement is not created. */
  lemma {:induction false} ReplaceKeepsAbsent(s: string, pat: string, rep: string, d: char)
    requires pat != [] && d !in s && d !in rep
    ensures d !in Replace(s, pat, rep)
  {
    if |s| >= |pat| {
      if s[..|pat|] == pat {
        ReplaceKeepsAbsent(s[|pat|..], pat, rep, d);
      } else {
        ReplaceKeepsAbsent(s[1..], pat, rep, d);
      }
    }
  }

  /** Text without the pattern's first character is left alone. */
  lemma {:induction false} ReplaceAbsent(s: string, pat: string, rep: string)
    requires pat != [] && pat[0] !in s
    ensures Replace(s, pat, rep) == s
  {
    if |s| >= |pat| {
      assert s[..|pat|][0] == s[0];
      ReplaceAbsent(s[1..], pat, rep);
    }
  }

  /** Replacing a single character works piecewise. */
  lemma {:induction false} ReplaceCharConcat(a: string, b: string, c: char, rep: string)
    ensures Replace(a + b, [c], rep) == Replace(a, [c], rep) + Replace(b, [c], rep)
  {
    if a == [] {
      assert a + b == b;
    } else {
      assert (a + b)[1..] == a[1..] + b;
      assert (a + b)[..1] == a[..1];
      ReplaceCharConcat(a[1..], b, c, rep);
    }
  }

  /** Replacing a character leaves a middle part without it in place. */
  lemma ReplaceCharKeepsMiddle(a: string, m: string, b: string, c: char, rep: string)
    requires c !in m
    ensures Replace(a + m + b, [c], rep) == Replace(a, [c], rep) + m + Replace(b, [c], rep)
  {
    ReplaceCharConcat(a + m, b, c, rep);
    ReplaceCharConcat(a, m, c, rep);
    ReplaceAbsent(m, [c], rep);
  }

  /** For a two-character pattern whose characters differ, occurrences
      never overlap, so a replacement splits around a known occurrence. */
  lemma {:induction false} ReplaceAround(a: string, b: string, pat: string, rep: string)
    requires |pat| == 2 && pat[0] != pat[1]
    ensures Replace(a + pat + b, pat, rep) == Replace(a, pat, rep) + rep + Replace(b, pat, rep)
    decreases |a|
  {
    var s := a + pat + b;
    if a == [] {
      assert s == pat + b;
      ReplaceMatch(s, pat, rep);
      assert s[2..] == b;
    } else if |a| == 1 {
      ReplaceAroundOne(a, b, pat, rep);
    } else {
      var k := if a[..2] == pat then 2 else 1;
      assert s[..2] == a[..2];
      assert s[k..] == a[k..] + pat + b;
      if k == 2 {
        ReplaceMatch(s, pat, rep);
        ReplaceMatch(a, pat, rep);
      } else {
        ReplaceSkip(s, pat, rep);
        ReplaceSkip(a, pat, rep);
      }
      ReplaceAround(a[k..], b, pat, rep);
    }
  }

  lemma ReplaceAroundOne(a: string, b: string, pat: string, rep: string)
    requires |pat| == 2 && pat[0] != pat[1] && |a| == 1
    ensures Replace(a + pat + b, pat, rep) == a + rep + Replace(b, pat, rep)
  {
    var s := a + pat + b;
    assert s[1] == pat[0];
    ReplaceSkip(s, pat, rep);
    var t := s[1..];
    assert t == pat + b;
    ReplaceMatch(t, pat, rep);
    assert t[2..] == b;
  }

  /** A lone occurrence of a one-character pattern becomes the replacement. */
  lemma ReplaceOne(c: char, rep: string)
    ensures Replace([c], [c], rep) == rep
  {
    assert [c][..1] == [c] && [c][1..] == [];
  }

  /** For a two-character pattern, a character that cannot take part in an
      occurrence stays in place and splits the replacement around it. */
  lemma {:induction false} ReplaceAroundChar(a: string, x: char, b: string, pat: string, rep: string)
    requires |pat| == 2 && x != pat[1]
    requires x != pat[0] || b == [] || b[0] != pat[1]
    ensures Replace(a + [x] + b, pat, rep) == Replace(a, pat, rep) + [x] + Replace(b, pat, rep)
    decreases |a|
  {
    var s := a + [x] + b;
    if a == [] {
      assert s == [x] + b;
      ReplaceCharFront(x, b, pat, rep);
    } else if |a| == 1 {
      assert s == a + ([x] + b);
      ReplaceCharSecond(a, x, b, pat, rep);
    } else {
      var k := if a[..2] == pat then 2 else 1;
      var h := if k == 2 then rep else [a[0]];
      ReplaceCharStep(a, x, b, pat, rep);
      ReplaceAroundChar(a[k..], x, b, pat, rep);
      AppendAssoc(h, Replace(a[k..], pat, rep), [x]);
      AppendAssoc(h, Replace(a[k..], pat, rep) + [x], Replace(b, pat, rep));
    }
  }

  lemma ReplaceCharStep(a: string, x: char, b: string, pat: string, rep: string)
    requires |pat| == 2 && |a| >= 2
    ensures var k := if a[..2] == pat then 2 else 1;
            var h := if k == 2 then rep else [a[0]];
            Replace(a + [x] + b, pat, rep) == h + Replace(a[k..] + [x] + b, pat, rep) &&
            Replace(a, pat, rep) == h + Replace(a[k..], pat, rep)
  {
    var s := a + [x] + b;
    var k := if a[..2] == pat then 2 else 1;
    assert s[..2] == a[..2];
    assert s[k..] == a[k..] + [x] + b;
    if k == 2 {
      ReplaceMatch(s, pat, rep);
      ReplaceMatch(a, pat, rep);
    } else {
      ReplaceSkip(s, pat, rep);
      ReplaceSkip(a, pat, rep);
    }
  }

  lemma ReplaceCharFront(x: char, b: string, pat: string, rep: string)
    requires |pat| == 2
    requires x != pat[0] || b == [] || b[0] != pat[1]
    ensures Replace([x] + b, pat, rep) == [x] + Replace(b, pat, rep)
  {
    var s := [x] + b;
    if b != [] {
      assert s[..2] == [x, b[0]];
      ReplaceSkip(s, pat, rep);
      assert s[1..] == b;
    }
  }

  lemma ReplaceCharSecond(a: string, x: char, b: string, pat: string, rep: string)
    requires |pat| == 2 && x != pat[1] && |a| == 1
    requires x != pat[0] || b == [] || b[0] != pat[1]
    ensures Replace(a + ([x] + b), pat, rep) == a + [x] + Replace(b, pat, rep)
  {
    var s := a + ([x] + b);
    assert s[0] == a[0] && s[1] == x && s[1..] == [x] + b;
    assert !StartsWith(s, pat) by { assert s[..2][1] == x; }
    ReplaceSkip(s, pat, rep);
    ReplaceCharFront(x, b, pat, rep);
    assert [a[0]] == a;
  }

  lemma ReplaceMatch(s: string, pat: string, rep: string)
    requires pat != [] && StartsWith(s, pat)
    ensures Replace(s, pat, rep) == rep + Replace(s[|pat|..], pat, rep)
  {
  }

  lemma ReplaceSkip(s: string, pat: string, rep: string)
    requires pat != [] && s != [] && !StartsWith(s, pat)
    ensures Replace(s, pat, rep) == if |s| < |pat| then s else [s[0]] + Replace(s[1..], pat, rep)
  {
  }

  /** `s[:n]`: the first `n` characters, or all of `s` when it is shorter. */
  function Take(s: string, n: nat): (r: string)
    ensures |r| == if |s| <= n then |s| else n
    ensures r == s[..|r|]
  {
    if |s| <= n then s else s[..n]
  }

  /** The number of occurrences of `c` in `s`. */
  function Count(s: string, c: char): nat {
    if s == [] then 0 else (if s[0] == c then 1 else 0) + Count(s[1..], c)
  }

  /** `s` with every `c` taken out. */
  function Without(s: string, c: char): string {
    if s == [] then [] else (if s[0] == c then [] else [s[0]]) + Without(s[1..], c)
  }

  lemma {:induction false} CountConcat(a: string, b: string, c: char)
    ensures Count(a + b, c) == Count(a, c) + Count(b, c)
  {
    if a != [] {
      assert (a + b)[1..] == a[1..] + b;
      CountConcat(a[1..], b, c);
    } else {
      assert a + b == b;
    }
  }

  lemma {:induction false} WithoutConcat(a: string, b: string, c: char)
    ensures Without(a + b, c) == Without(a, c) + Without(b, c)
  {
    if a != [] {
      assert (a + b)[1..] == a[1..] + b;
      WithoutConcat(a[1..], b, c);
    } else {
      assert a + b == b;
    }
  }

  lemma {:induction false} CountAbsent(s: string, c: char)
    requires c !in s
    ensures Count(s, c) == 0
  {
    if s != [] {
      CountAbsent(s[1..], c);
    }
  }

  lemma {:induction false} WithoutAbsent(s: string, c: char)
    requires c !in s
    ensures Without(s, c) == s
  {
    if s != [] {
      WithoutAbsent(s[1..], c);
    }
  }

  /** Concatenation regroups; stated once so that long proofs can cite it. */
  lemma AppendAssoc<T>(a: seq<T>, b: seq<T>, c: seq<T>)
    ensures a + (b + c) == a + b + c
  {
  }
}
