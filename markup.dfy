/** The regular expressions of the converter: removal of bold, italic and
    code markup with non-greedy `re.sub` patterns, the list-bullet prefix,
    the table separator test, and the splitting of a table line into cells. */
module Markup {
  import opened Strings

  datatype Option<T> = None | Some(value: T)

  /** Does `d` occur in `t` starting at offset `k`? */
  predicate OccursAt(t: string, d: string, k: nat) {
    k + |d| <= |t| && forall i :: 0 <= i < |d| ==> t[k + i] == d[i]
  }

  /** The group of a non-greedy `(.*?)` followed by the closing delimiter
      `d`: the least `k` at which `d` occurs, provided no newline comes
      first, since `.` does not match a newline. */
  function FindClose(t: string, d: string): (r: Option<nat>)
    requires d != []
    ensures r.Some? ==> r.value + |d| <= |t|
  {
    if OccursAt(t, d, 0) then Some(0)
    else if t == [] || t[0] == '\n' then None
    else
      match FindClose(t[1..], d)
      case None => None
      case Some(k) => Some(k + 1)
  }

  /** `FindClose` finds the first occurrence before any newline, and
      reports none only when there is none before a newline. */
  lemma {:induction false} FindCloseSpec(t: string, d: string)
    requires d != []
    ensures FindClose(t, d).Some? ==>
              var k := FindClose(t, d).value;
              OccursAt(t, d, k) && '\n' !in t[..k] && forall j :: 0 <= j < k ==> !OccursAt(t, d, j)
    ensures FindClose(t, d).None? ==>
              forall k {:trigger OccursAt(t, d, k)} :: 0 <= k <= |t| && '\n' !in t[..k] ==> !OccursAt(t, d, k)
    decreases |t|
  {
    if OccursAt(t, d, 0) {
    } else if t == [] || t[0] == '\n' {
      forall k | 1 <= k <= |t|
        ensures '\n' in t[..k]
      {
        assert t[..k][0] == '\n';
      }
    } else {
      FindCloseSpec(t[1..], d);
      match FindClose(t[1..], d)
      case None => FindCloseNone(t, d);
      case Some(k) => FindCloseSome(t, d, k);
    }
  }

  lemma FindCloseShift(t: string, d: string, k: nat)
    requires t != [] && 1 <= k
    ensures OccursAt(t, d, k) <==> OccursAt(t[1..], d, k - 1)
  {
    if OccursAt(t, d, k) {
      forall i | 0 <= i < |d|
        ensures t[1..][k - 1 + i] == d[i]
      {
        assert t[k + i] == d[i];
      }
    }
    if OccursAt(t[1..], d, k - 1) {
      forall i | 0 <= i < |d|
        ensures t[k + i] == d[i]
      {
        assert t[1..][k - 1 + i] == d[i];
      }
    }
  }

  /** An occurrence is a slice equal to the delimiter. */
  lemma OccursSlice(t: string, d: string, k: nat)
    requires k + |d| <= |t|
    ensures OccursAt(t, d, k) <==> t[k..k + |d|] == d
  {
    if t[k..k + |d|] == d {
      forall i | 0 <= i < |d|
        ensures t[k + i] == d[i]
      {
        assert t[k..k + |d|][i] == t[k + i];
      }
    }
    if OccursAt(t, d, k) {
      assert forall i :: 0 <= i < |d| ==> t[k..k + |d|][i] == d[i];
    }
  }

  lemma FindCloseNone(t: string, d: string)
    requires d != [] && t != [] && t[0] != '\n' && !OccursAt(t, d, 0)
    requires forall k {:trigger OccursAt(t[1..], d, k)} :: 0 <= k <= |t[1..]| && '\n' !in t[1..][..k] ==> !OccursAt(t[1..], d, k)
    ensures forall k {:trigger OccursAt(t, d, k)} :: 0 <= k <= |t| && '\n' !in t[..k] ==> !OccursAt(t, d, k)
  {
    forall k | 1 <= k <= |t| && '\n' !in t[..k]
      ensures !OccursAt(t, d, k)
    {
      assert t[1..][..k - 1] == t[1..k];
      FindCloseShift(t, d, k);
    }
  }

  lemma FindCloseSome(t: string, d: string, k: nat)
    requires d != [] && t != [] && t[0] != '\n' && !OccursAt(t, d, 0)
    requires OccursAt(t[1..], d, k) && '\n' !in t[1..][..k]
    requires forall j :: 0 <= j < k ==> !OccursAt(t[1..], d, j)
    ensures OccursAt(t, d, k + 1) && '\n' !in t[..k + 1]
    ensures forall j :: 0 <= j < k + 1 ==> !OccursAt(t, d, j)
  {
    FindCloseShift(t, d, k + 1);
    assert t[..k + 1] == [t[0]] + t[1..][..k];
    forall j | 1 <= j < k + 1
      ensures !OccursAt(t, d, j)
    {
      FindCloseShift(t, d, j);
    }
  }

  /** `re.sub(D(.*?)D, r'\1', s)` for a delimiter `D`: scanning left to
      right, a delimiter that has a closing delimiter later on the same
      line is removed together with that closing delimiter, keeping the
      text between them; any other character is kept. */
  function StripPair(s: string, d: string): (r: string)
    requires d != []
    ensures |r| <= |s|
    decreases |s|
  {
    if s == [] then []
    else
      var step := PairStep(s, d);
      step.0 + StripPair(step.1, d)
  }

  /** When `s` opens with the delimiter, where in the rest the closing
      delimiter begins. */
  function PairAt(s: string, d: string): (r: Option<nat>)
    requires d != []
    ensures r.Some? ==> |d| + r.value + |d| <= |s|
  {
    if OccursAt(s, d, 0) then FindClose(s[|d|..], d) else None
  }

  /** One step of the scan: the text kept and the text still to scan. */
  function PairStep(s: string, d: string): (r: (string, string))
    requires d != [] && s != []
    ensures |r.0| + |r.1| <= |s| && |r.1| < |s|
  {
    match PairAt(s, d)
    case Some(k) => (s[|d|..|d| + k], s[|d| + k + |d|..])
    case None => ([s[0]], s[1..])
  }

  lemma PairAtOpen(s: string, d: string, k: nat)
    requires d != [] && OccursAt(s, d, 0) && FindClose(s[|d|..], d) == Some(k)
    ensures PairAt(s, d) == Some(k)
  {
  }

  lemma PairAtSpec(s: string, d: string)
    requires d != [] && PairAt(s, d).Some?
    ensures OccursAt(s, d, 0) && FindClose(s[|d|..], d) == PairAt(s, d)
  {
  }

  /** Lines 101-103 and 112-114: bold, then italic, then code markup. */
  function Clean(s: string): string {
    StripPair(StripPair(StripPair(s, "**"), "*"), "`")
  }

  /** Text without the delimiter's first character is left alone. */
  lemma {:induction false} StripPairAbsent(s: string, d: string)
    requires d != [] && d[0] !in s
    ensures StripPair(s, d) == s
  {
    if s != [] {
      StripPairKeepsOther(s, d);
      StripPairAbsent(s[1..], d);
      assert [s[0]] + s[1..] == s;
    }
  }

  /** A prefix without the delimiter's first character passes through. */
  lemma {:induction false} StripPairPrefix(p: string, t: string, d: string)
    requires d != [] && d[0] !in p
    ensures StripPair(p + t, d) == p + StripPair(t, d)
  {
    if p == [] {
      assert p + t == t;
    } else {
      var s := p + t;
      assert s[0] == p[0] && s[1..] == p[1..] + t;
      StripPairKeepsOther(s, d);
      StripPairPrefix(p[1..], t, d);
      calc {
        StripPair(s, d);
      ==
        [p[0]] + StripPair(p[1..] + t, d);
      ==
        [p[0]] + (p[1..] + StripPair(t, d));
      == { AppendAssoc([p[0]], p[1..], StripPair(t, d)); }
        [p[0]] + p[1..] + StripPair(t, d);
      == { assert [p[0]] + p[1..] == p; }
        p + StripPair(t, d);
      }
    }
  }

  /** The two ways `StripPair` can take a step. */
  lemma StripPairTakesPair(s: string, d: string, k: nat)
    requires d != [] && PairAt(s, d) == Some(k)
    ensures |d| + k + |d| <= |s|
    ensures StripPair(s, d) == s[|d|..|d| + k] + StripPair(s[|d| + k + |d|..], d)
  {
    PairStepTakes(s, d, k);
    StripPairUnfold(s, d);
  }

  lemma PairStepTakes(s: string, d: string, k: nat)
    requires d != [] && PairAt(s, d) == Some(k)
    ensures |d| + k + |d| <= |s|
    ensures PairStep(s, d).0 == s[|d|..|d| + k]
    ensures PairStep(s, d).1 == s[|d| + k + |d|..]
  {
  }

  lemma StripPairUnfold(s: string, d: string)
    requires d != [] && s != []
    ensures StripPair(s, d) == PairStep(s, d).0 + StripPair(PairStep(s, d).1, d)
  {
  }

  /** A character that cannot open a pair is kept. */
  lemma StripPairKeepsOther(s: string, d: string)
    requires d != [] && s != [] && s[0] != d[0]
    ensures StripPair(s, d) == [s[0]] + StripPair(s[1..], d)
  {
    NotOccursAt(s, d, 0);
    StripPairKeepsFirst(s, d);
  }

  lemma StripPairKeepsFirst(s: string, d: string)
    requires d != [] && s != [] && PairAt(s, d).None?
    ensures StripPair(s, d) == [s[0]] + StripPair(s[1..], d)
  {
    assert PairStep(s, d).0 == [s[0]];
    assert PairStep(s, d).1 == s[1..];
    StripPairUnfold(s, d);
  }

  /** The nearest closing delimiter is found when nothing before it could
      start one. */
  lemma FindCloseAt(x: string, d: string, rest: string)
    requires d != [] && d[0] !in x && '\n' !in x
    ensures FindClose(x + d + rest, d) == Some(|x|)
  {
    var t := x + d + rest;
    assert t[|x|..|x| + |d|] == d;
    assert t[..|x|] == x;
    forall j | 0 <= j < |x|
      ensures !OccursAt(t, d, j)
    {
      assert t[j] == x[j];
      NotOccursAt(t, d, j);
    }
    OccursSlice(t, d, |x|);
    FirstOccurrence(t, d, |x|);
  }

  /** The first occurrence before any newline is the one found. */
  lemma FirstOccurrence(t: string, d: string, k: nat)
    requires d != [] && OccursAt(t, d, k) && '\n' !in t[..k]
    requires forall j :: 0 <= j < k ==> !OccursAt(t, d, j)
    ensures FindClose(t, d) == Some(k)
  {
    FindCloseSpec(t, d);
  }

  /** No occurrence starts at a character other than the delimiter's first. */
  lemma NotOccursAt(t: string, d: string, k: nat)
    requires d != [] && k < |t| && t[k] != d[0]
    ensures !OccursAt(t, d, k)
  {
    assert t[k + 0] == t[k];
  }

  /** Leftmost and shortest: the first delimiter, and the nearest closing
      delimiter after it with no newline between them, form the pair that
      is removed. */
  lemma StripPairFirst(p: string, x: string, rest: string, d: string)
    requires d != [] && d[0] !in p && d[0] !in x && '\n' !in x
    ensures StripPair(p + d + x + d + rest, d) == p + x + StripPair(rest, d)
  {
    var s := d + x + d + rest;
    assert p + d + x + d + rest == p + s;
    StripPairPrefix(p, s, d);
    StripPairOpening(s, x, rest, d);
  }

  lemma StripPairOpening(s: string, x: string, rest: string, d: string)
    requires d != [] && d[0] !in x && '\n' !in x && s == d + x + d + rest
    ensures StripPair(s, d) == x + StripPair(rest, d)
  {
    assert OccursAt(s, d, 0) by {
      assert s[..|d|] == d;
    }
    assert s[|d|..] == x + d + rest;
    assert FindClose(s[|d|..], d) == Some(|x|) by {
      FindCloseAt(x, d, rest);
    }
    PairAtOpen(s, d, |x|);
    PairStepOf(s, d, x, rest);
    StripPairUnfold(s, d);
  }

  lemma PairStepOf(s: string, d: string, x: string, rest: string)
    requires d != [] && s == d + x + d + rest && PairAt(s, d) == Some(|x|)
    ensures PairStep(s, d).0 == x && PairStep(s, d).1 == rest
  {
    PairStepTakes(s, d, |x|);
    assert s[|d|..|d| + |x|] == x;
    assert s[|d| + |x| + |d|..] == rest;
  }

  /** Every character of `d` is the same one, as in `**`, `*` and a backtick. */
  predicate Uniform(d: string) {
    d != [] && forall i :: 0 <= i < |d| ==> d[i] == d[0]
  }

  /** Only delimiter characters are removed: the text with them taken out
      is the same before and after. */
  lemma {:induction false} StripPairRemovesOnlyDelimiters(s: string, d: string)
    requires Uniform(d)
    ensures Without(StripPair(s, d), d[0]) == Without(s, d[0])
    decreases |s|
  {
    if s != [] {
      if PairAt(s, d).Some? {
        var k := PairAt(s, d).value;
        StripPairTakesPair(s, d, k);
        PairAtSpec(s, d);
        FindCloseSpec(s[|d|..], d);
        var x, rest := s[|d|..|d| + k], s[|d| + k + |d|..];
        StripPairRemovesOnlyDelimiters(rest, d);
        WithoutConcat(x, StripPair(rest, d), d[0]);
        WithoutPair(s, d, k);
      } else {
        StripPairKeepsFirst(s, d);
        StripPairRemovesOnlyDelimiters(s[1..], d);
        WithoutConcat([s[0]], StripPair(s[1..], d), d[0]);
        assert s == [s[0]] + s[1..];
        WithoutConcat([s[0]], s[1..], d[0]);
      }
    }
  }

  lemma WithoutPair(s: string, d: string, k: nat)
    requires Uniform(d) && OccursAt(s, d, 0) && OccursAt(s[|d|..], d, k)
    ensures Without(s, d[0]) == Without(s[|d|..|d| + k], d[0]) + Without(s[|d| + k + |d|..], d[0])
  {
    var x, rest := s[|d|..|d| + k], s[|d| + k + |d|..];
    OccursSlice(s, d, 0);
    OccursSlice(s[|d|..], d, k);
    assert s[..|d|] == d;
    assert s[|d|..][k..k + |d|] == s[|d| + k..|d| + k + |d|];
    assert s == d + (x + (d + rest));
    WithoutUniform(d);
    WithoutConcat(d, x + (d + rest), d[0]);
    WithoutConcat(x, d + rest, d[0]);
    WithoutConcat(d, rest, d[0]);
  }

  lemma {:induction false} WithoutUniform(d: string)
    requires Uniform(d)
    ensures Without(d, d[0]) == []
  {
    if |d| > 1 {
      WithoutUniform(d[1..]);
    }
  }

  /** Taking out one character does not change the count of another. */
  lemma {:induction false} CountWithout(s: string, c: char, e: char)
    requires c != e
    ensures Count(Without(s, e), c) == Count(s, c)
  {
    if s != [] {
      CountWithout(s[1..], c, e);
      CountConcat(if s[0] == e then [] else [s[0]], Without(s[1..], e), c);
    }
  }

  /** Characters other than the delimiter's are kept, as many as before. */
  lemma StripPairKeepsOthers(s: string, d: string, c: char)
    requires Uniform(d) && c != d[0]
    ensures Count(StripPair(s, d), c) == Count(s, c)
  {
    StripPairRemovesOnlyDelimiters(s, d);
    CountWithout(s, c, d[0]);
    CountWithout(StripPair(s, d), c, d[0]);
  }

  /** With a one-character delimiter and no newline, every delimiter but
      possibly the last finds a partner, so at most one is left. */
  lemma {:induction false} StripSingleLeavesOne(s: string, c: char)
    requires '\n' !in s
    ensures Count(StripPair(s, [c]), c) <= 1
    decreases |s|
  {
    var d := [c];
    if s != [] {
      var t := s[1..];
      if s[0] == c {
        assert OccursAt(s, d, 0);
        assert s[|d|..] == t;
        match FindClose(t, d)
        case Some(k) =>
          SingleBeforeClose(t, c, k);
          CountAbsent(t[..k], c);
          PairAtOpen(s, d, k);
          StripPairTakesPair(s, d, k);
          assert s[|d|..|d| + k] == t[..k];
          assert s[|d| + k + |d|..] == t[k + 1..];
          StripSingleLeavesOne(t[k + 1..], c);
          CountConcat(t[..k], StripPair(t[k + 1..], d), c);
        case None =>
          StripPairKeepsFirst(s, d);
          SingleNoClose(t, c);
          StripPairAbsent(t, d);
          CountAbsent(t, c);
      } else {
        StripPairKeepsOther(s, d);
        StripSingleLeavesOne(t, c);
      }
    }
  }

  lemma SingleBeforeClose(t: string, c: char, k: nat)
    requires FindClose(t, [c]) == Some(k)
    ensures k <= |t| && c !in t[..k]
  {
    FindCloseSpec(t, [c]);
    forall j | 0 <= j < k
      ensures t[j] != c
    {
      assert !OccursAt(t, [c], j);
      assert [c][0] == c && t[j + 0] == t[j];
    }
  }

  lemma SingleNoClose(t: string, c: char)
    requires '\n' !in t && FindClose(t, [c]).None?
    ensures c !in t
  {
    FindCloseSpec(t, [c]);
    forall j | 0 <= j < |t|
      ensures t[j] != c
    {
      assert '\n' !in t[..j];
      assert !OccursAt(t, [c], j);
      assert [c][0] == c && t[j + 0] == t[j];
    }
  }

  /** A pair removal never introduces a newline. */
  lemma {:induction false} StripPairNoNewline(s: string, d: string)
    requires d != [] && '\n' !in s
    ensures '\n' !in StripPair(s, d)
    decreases |s|
  {
    if s != [] {
      if PairAt(s, d).Some? {
        var k := PairAt(s, d).value;
        StripPairTakesPair(s, d, k);
        StripPairNoNewline(s[|d| + k + |d|..], d);
        assert forall ch :: ch in s[|d|..|d| + k] ==> ch in s;
      } else {
        StripPairKeepsFirst(s, d);
        StripPairNoNewline(s[1..], d);
      }
    }
  }

  /** What the clean-up promises: it never lengthens the text, leaves text
      without `*` and backticks alone, removes nothing but `*` and
      backticks, and on one line leaves at most one `*` and at most one
      backtick behind. */
  lemma CleanProperties(s: string)
    ensures |Clean(s)| <= |s|
    ensures '*' !in s && '`' !in s ==> Clean(s) == s
    ensures Without(Without(Clean(s), '*'), '`') == Without(Without(s, '*'), '`')
    ensures '\n' !in s ==> Count(Clean(s), '*') <= 1 && Count(Clean(s), '`') <= 1
  {
    var b := StripPair(s, "**");
    var i := StripPair(b, "*");
    var r := StripPair(i, "`");
    if '*' !in s && '`' !in s {
      StripPairAbsent(s, "**");
      StripPairAbsent(s, "*");
      StripPairAbsent(s, "`");
    }
    StripPairRemovesOnlyDelimiters(s, "**");
    StripPairRemovesOnlyDelimiters(b, "*");
    StripPairRemovesOnlyDelimiters(i, "`");
    WithoutCommutes(r, '*', '`');
    WithoutCommutes(i, '*', '`');
    if '\n' !in s {
      StripPairNoNewline(s, "**");
      StripPairNoNewline(b, "*");
      StripSingleLeavesOne(b, '*');
      StripPairKeepsOthers(i, "`", '*');
      StripSingleLeavesOne(i, '`');
    }
  }

  /** No `*` and no backtick. */
  predicate Unmarked(s: string) {
    '*' !in s && '`' !in s
  }

  /** A text that differs from the delimiter in its second character
      does not open a pair. */
  lemma NoPairAt(s: string, d: string)
    requires 2 <= |d| && 2 <= |s| && s[1] != d[1]
    ensures PairAt(s, d).None?
  {
    assert s[0 + 1] != d[1];
  }

  /** A `*` not followed by another `*` opens no bold pair. */
  lemma LoneStar(p: string, t: string)
    requires '*' !in p && t != [] && t[0] != '*'
    ensures StripPair(p + "*" + t, "**") == p + "*" + StripPair(t, "**")
  {
    var s := "*" + t;
    assert p + "*" + t == p + s;
    StripPairPrefix(p, s, "**");
    NoPairAt(s, "**");
    StripPairKeepsFirst(s, "**");
    assert [s[0]] == "*" && s[1..] == t;
    AppendAssoc(p, "*", StripPair(t, "**"));
  }

  /** One bold span on a line otherwise free of markup loses its markers. */
  lemma CleanBold(a: string, b: string, c: string)
    requires Unmarked(a) && Unmarked(b) && Unmarked(c) && '\n' !in b
    ensures Clean(a + "**" + b + "**" + c) == a + b + c
  {
    StripPairFirst(a, b, c, "**");
    StripPairAbsent(c, "**");
    var m := a + b + c;
    assert Unmarked(m);
    StripPairAbsent(m, "*");
    StripPairAbsent(m, "`");
  }

  /** Bold, then italic, then code: one span of each, in that order, on a
      line otherwise free of markup, each loses its markers. The italic
      span must not be empty, or its two `*` would read as a bold marker. */
  lemma CleanSpans(a: string, b: string, c: string, d: string, e: string, f: string, g: string)
    requires Unmarked(a) && Unmarked(b) && Unmarked(c) && Unmarked(d)
    requires Unmarked(e) && Unmarked(f) && Unmarked(g)
    requires '\n' !in b && '\n' !in d && '\n' !in f && d != []
    ensures Clean(a + "**" + b + "**" + (c + "*" + d + "*" + (e + "`" + f + "`" + g)))
            == a + b + c + d + e + f + g
  {
    var code := e + "`" + f + "`" + g;
    var r := c + "*" + d + "*" + code;
    StripPairFirst(a, b, r, "**");
    assert code[0] == if e == [] then '`' else e[0];
    LoneStars(c, d, code);
    ItalicSpan(a + b, c, d, code);
    CodeSpan(a + b + c + d, e, f, g);
  }

  /** Between and after two lone `*`, no bold pair opens. */
  lemma LoneStars(c: string, d: string, code: string)
    requires '*' !in c && '*' !in d && '*' !in code && d != []
    requires code != [] && code[0] != '*'
    ensures StripPair(c + "*" + d + "*" + code, "**") == c + "*" + d + "*" + code
  {
    assert c + "*" + d + "*" + code == c + "*" + (d + "*" + code);
    assert (d + "*" + code)[0] == d[0];
    LoneStar(c, d + "*" + code);
    LoneStar(d, code);
    StripPairAbsent(code, "**");
    AppendAssoc(c, "*", d + "*" + code);
  }

  lemma ItalicSpan(p: string, c: string, d: string, code: string)
    requires '*' !in p && '*' !in c && '*' !in d && '*' !in code && '\n' !in d
    ensures StripPair(p + (c + "*" + d + "*" + code), "*") == p + c + d + code
  {
    SpanAssoc(p, c, "*", d, code);
    StripPairFirst(p + c, d, code, "*");
    StripPairAbsent(code, "*");
  }

  lemma CodeSpan(p: string, e: string, f: string, g: string)
    requires '`' !in p && '`' !in e && '`' !in f && '`' !in g && '\n' !in f
    ensures StripPair(p + (e + "`" + f + "`" + g), "`") == p + e + f + g
  {
    SpanAssoc(p, e, "`", f, g);
    StripPairFirst(p + e, f, g, "`");
    StripPairAbsent(g, "`");
  }

  /** Regrouping a text in front of a span. */
  lemma SpanAssoc(p: string, e: string, m: string, f: string, g: string)
    ensures p + (e + m + f + m + g) == p + e + m + f + m + g
  {
    AppendAssoc(p, e + m + f + m, g);
    AppendAssoc(p, e + m + f, m);
    AppendAssoc(p, e + m, f);
    AppendAssoc(p, e, m);
  }

  lemma {:induction false} WithoutCommutes(s: string, c: char, e: char)
    ensures Without(Without(s, c), e) == Without(Without(s, e), c)
  {
    if s != [] {
      WithoutCommutes(s[1..], c, e);
      WithoutConcat(if s[0] == c then [] else [s[0]], Without(s[1..], c), e);
      WithoutConcat(if s[0] == e then [] else [s[0]], Without(s[1..], e), c);
    }
  }

  /** `re.sub(r'^[-*]\s+', '', s)`: a leading `-` or `*` followed by
      whitespace is removed together with all of that whitespace. */
  function DropBullet(s: string): (r: string)
    ensures |r| <= |s| && r == s[|s| - |r|..]
    ensures r != s <==> |s| >= 2 && s[0] in "-*" && IsSpace(s[1])
    ensures r != s ==> AllSpace(s[1..|s| - |r|]) && (r == [] || !IsSpace(r[0]))
  {
    if |s| >= 2 && s[0] in "-*" && IsSpace(s[1]) then
      var r := TrimLeft(s[1..]);
      TrimLeftSpaces(s[1..]);
      assert s[1..][..|s| - 1 - |r|] == s[1..|s| - |r|];
      r
    else s
  }

  /** `re.match(r'^[\|\s\-:]+$', s)` for a text without a newline: a
      non-empty text of pipes, whitespace, hyphens and colons only. */
  predicate IsSeparator(s: string) {
    s != [] && forall i :: 0 <= i < |s| ==> SeparatorChar(s[i])
  }

  predicate SeparatorChar(c: char) {
    c == '|' || IsSpace(c) || c == '-' || c == ':'
  }

  /** Lines 67-68: the stripped pieces, with the empty ones dropped. */
  function Cells(pieces: seq<string>): (cells: seq<string>)
    ensures |cells| <= |pieces|
  {
    if pieces == [] then []
    else
      var c := Strip(pieces[0]);
      (if c == [] then [] else [c]) + Cells(pieces[1..])
  }

  /** Every cell is non-empty and neither starts nor ends with whitespace. */
  predicate NonBlankTrimmed(cells: seq<string>) {
    forall i :: 0 <= i < |cells| ==> cells[i] != [] && Trimmed(cells[i])
  }

  predicate PipeFree(pieces: seq<string>) {
    forall i :: 0 <= i < |pieces| ==> '|' !in pieces[i]
  }

  lemma {:induction false} CellsTrimmed(pieces: seq<string>)
    ensures NonBlankTrimmed(Cells(pieces))
  {
    if pieces != [] {
      CellsTrimmed(pieces[1..]);
      var c := Strip(pieces[0]);
      NonBlankTrimmedConcat(if c == [] then [] else [c], Cells(pieces[1..]));
    }
  }

  lemma {:induction false} CellsNoPipe(pieces: seq<string>)
    requires PipeFree(pieces)
    ensures PipeFree(Cells(pieces))
  {
    if pieces != [] {
      PipeFreeTail(pieces);
      CellsNoPipe(pieces[1..]);
      var c := Strip(pieces[0]);
      var head := if c == [] then [] else [c];
      StripNoPipe(pieces[0]);
      SingleNoPipe(c);
      PipeFreeConcat(head, Cells(pieces[1..]));
    }
  }

  lemma SingleNoPipe(c: string)
    requires '|' !in c
    ensures PipeFree(if c == [] then [] else [c])
  {
    if c != [] {
      assert [c][0] == c;
    }
  }

  lemma PipeFreeTail(pieces: seq<string>)
    requires pieces != [] && PipeFree(pieces)
    ensures '|' !in pieces[0] && PipeFree(pieces[1..])
  {
    assert forall i :: 0 <= i < |pieces| - 1 ==> pieces[1..][i] == pieces[i + 1];
  }

  lemma NonBlankTrimmedConcat(a: seq<string>, b: seq<string>)
    requires NonBlankTrimmed(a) && NonBlankTrimmed(b)
    ensures NonBlankTrimmed(a + b)
  {
    assert forall i :: |a| <= i < |a + b| ==> (a + b)[i] == b[i - |a|];
  }

  lemma PipeFreeConcat(a: seq<string>, b: seq<string>)
    requires PipeFree(a) && PipeFree(b)
    ensures PipeFree(a + b)
  {
    assert forall i :: |a| <= i < |a + b| ==> (a + b)[i] == b[i - |a|];
  }

  /** The cells of one table line: none is empty, none holds a pipe, and
      none starts or ends with whitespace. */
  function RowCells(line: string): (cells: seq<string>)
    ensures forall i :: 0 <= i < |cells| ==> cells[i] != [] && Trimmed(cells[i]) && '|' !in cells[i]
  {
    CellsTrimmed(Split(line, '|'));
    CellsNoPipe(Split(line, '|'));
    Cells(Split(line, '|'))
  }

  /** A line that is not a separator has a character other than a pipe,
      whitespace, hyphen or colon, and that character survives into a
      cell: such a line always yields a row. */
  lemma RowCellsNonEmpty(line: string)
    requires line != [] && !IsSeparator(line)
    ensures RowCells(line) != []
  {
    var k :| 0 <= k < |line| && !SeparatorChar(line[k]);
    var j, m := SplitCovers(line, '|', k);
    var pieces := Split(line, '|');
    StripEmpty(pieces[j]);
    CellsKeepVisible(pieces, j);
  }

  lemma {:induction false} CellsKeepVisible(pieces: seq<string>, j: nat)
    requires j < |pieces| && Strip(pieces[j]) != []
    ensures Strip(pieces[j]) in Cells(pieces) && Cells(pieces) != []
  {
    if j > 0 {
      assert pieces[1..][j - 1] == pieces[j];
      CellsKeepVisible(pieces[1..], j - 1);
    }
  }

  /** A markdown table row written out from its cells, `| a | b | c |`. */
  function FormatRow(cells: seq<string>): string {
    Join([""] + Padded(cells) + [""], '|')
  }

  function Padded(cells: seq<string>): seq<string> {
    if cells == [] then [] else [" " + cells[0] + " "] + Padded(cells[1..])
  }

  /** Parsing a written-out row gives its cells back, as long as each cell
      is non-empty, trimmed and free of pipes. */
  lemma FormatRowParses(cells: seq<string>)
    requires NonBlankTrimmed(cells) && PipeFree(cells)
    ensures RowCells(FormatRow(cells)) == cells
  {
    var parts := [""] + Padded(cells) + [""];
    PaddedFree(cells);
    SplitJoin(parts, '|');
    assert parts == [""] + (Padded(cells) + [""]);
    CellsCons("", Padded(cells) + [""]);
    assert Strip("") == "";
    CellsPadded(cells);
  }

  lemma {:induction false} PaddedFree(cells: seq<string>)
    requires PipeFree(cells)
    ensures PipeFree(Padded(cells)) && |Padded(cells)| == |cells|
  {
    if cells != [] {
      PipeFreeTail(cells);
      PaddedFree(cells[1..]);
      assert '|' !in " " + cells[0] + " " by {
        assert cells[0] == cells[0];
      }
      PipeFreeConcat([" " + cells[0] + " "], Padded(cells[1..]));
    }
  }

  lemma {:induction false} CellsPadded(cells: seq<string>)
    requires NonBlankTrimmed(cells)
    ensures Cells(Padded(cells) + [""]) == cells
  {
    if cells == [] {
      StripPadded("", "", "");
      assert Padded(cells) + [""] == [""];
      CellsCons("", []);
    } else {
      assert NonBlankTrimmed(cells[1..]) by {
        assert forall i :: 0 <= i < |cells| - 1 ==> cells[1..][i] == cells[i + 1];
      }
      var c := cells[0];
      CellsPadded(cells[1..]);
      CellsPaddedStep(c, cells[1..]);
      assert [c] + cells[1..] == cells;
    }
  }

  lemma CellsPaddedStep(c: string, rest: seq<string>)
    requires c != [] && Trimmed(c)
    ensures Cells(Padded([c] + rest) + [""]) == [c] + Cells(Padded(rest) + [""])
  {
    StripPadded(" ", c, " ");
    assert ([c] + rest)[1..] == rest;
    assert Padded([c] + rest) + [""] == [" " + c + " "] + (Padded(rest) + [""]);
    CellsCons(" " + c + " ", Padded(rest) + [""]);
  }

  lemma CellsCons(p: string, rest: seq<string>)
    ensures Cells([p] + rest) == (if Strip(p) == [] then [] else [Strip(p)]) + Cells(rest)
  {
    assert ([p] + rest)[1..] == rest;
  }

  lemma StripNoPipe(p: string)
    requires '|' !in p
    ensures '|' !in Strip(p)
  {
    StripSubset(p);
  }

  lemma StripSubset(s: string)
    ensures forall c :: c in Strip(s) ==> c in s
  {
    var l := TrimLeft(s);
    var r := TrimRight(l);
    assert Strip(s) == r;
    SliceSubset(l, 0, |r|);
    SliceSubset(s, |s| - |l|, |s|);
  }

  lemma SliceSubset(t: string, i: nat, j: nat)
    requires i <= j <= |t|
    ensures forall c :: c in t[i..j] ==> c in t
  {
    forall c | c in t[i..j]
      ensures c in t
    {
      var k :| 0 <= k < j - i && t[i..j][k] == c;
      assert t[i + k] == c;
    }
  }
}
