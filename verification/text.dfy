/**
  The handful of Python `str` operations the application relies on, restricted to ASCII:
  `strip`, `split(sep)`, `sep.join`, `replace`, `in`, `startswith`/`endswith`, `lower`,
  `title`, `isupper` and `str(n)` for a natural number.
 */
module Text {

  /** `str.isspace` on one ASCII character: space, \t \n \v \f \r and the separators 0x1C-0x1F. */
  predicate IsSpace(c: char) {
    c == ' ' || ('\t' <= c <= '\r') || ('\U{1C}' <= c <= '\U{1F}')
  }

  predicate AllSpace(s: string) {
    forall i :: 0 <= i < |s| ==> IsSpace(s[i])
  }

  /** No whitespace at either end: what `str.strip` leaves behind. */
  predicate IsTrimmed(s: string) {
    |s| == 0 || (!IsSpace(s[0]) && !IsSpace(s[|s| - 1]))
  }

  // ---------------------------------------------------------------------------
  // strip

  /** `str.lstrip()`: drops the longest all-whitespace prefix. */
  function LStrip(s: string): (r: string)
    ensures |r| <= |s| && r == s[|s| - |r|..]
    ensures AllSpace(s[..|s| - |r|])
    ensures |r| == 0 || !IsSpace(r[0])
  {
    if |s| > 0 && IsSpace(s[0]) then
      var t := s[1..];
      var r := LStrip(t);
      assert s[|s| - |r|..] == t[|t| - |r|..];
      assert s[..|s| - |r|] == [s[0]] + t[..|t| - |r|];
      SpaceCons(s[0], t[..|t| - |r|]);
      r
    else s
  }

  /** `str.rstrip()`: drops the longest all-whitespace suffix. */
  function RStrip(s: string): (r: string)
    ensures |r| <= |s| && r == s[..|r|]
    ensures AllSpace(s[|r|..])
    ensures |r| == 0 || !IsSpace(r[|r| - 1])
  {
    if |s| > 0 && IsSpace(s[|s| - 1]) then
      var t := s[..|s| - 1];
      var r := RStrip(t);
      assert s[..|r|] == t[..|r|];
      assert s[|r|..] == t[|r|..] + [s[|s| - 1]];
      SpaceSnoc(t[|r|..], s[|s| - 1]);
      r
    else s
  }

  lemma SpaceCons(c: char, t: string)
    requires IsSpace(c) && AllSpace(t)
    ensures AllSpace([c] + t)
  {
  }

  lemma SpaceSnoc(t: string, c: char)
    requires AllSpace(t) && IsSpace(c)
    ensures AllSpace(t + [c])
  {
  }

  /** Where the stripped text starts inside `s`. */
  function StripOffset(s: string): nat {
    |s| - |LStrip(s)|
  }

  /** `str.strip()`: whitespace removed from both ends. */
  function Strip(s: string): (r: string)
    ensures IsTrimmed(r)
    ensures |r| <= |s|
  {
    RStrip(LStrip(s))
  }

  /** The stripped text is the window of `s` between a whitespace-only prefix and a
      whitespace-only suffix. */
  lemma StripWindowOf(s: string)
    ensures StripOffset(s) + |Strip(s)| <= |s|
    ensures Strip(s) == s[StripOffset(s)..StripOffset(s) + |Strip(s)|]
    ensures AllSpace(s[..StripOffset(s)]) && AllSpace(s[StripOffset(s) + |Strip(s)|..])
  {
    StripIsWindow(s);
    StripDropsSpaceBefore(s);
    StripDropsSpaceAfter(s);
  }

  lemma StripIsWindow(s: string)
    ensures StripOffset(s) + |Strip(s)| <= |s|
    ensures Strip(s) == s[StripOffset(s)..StripOffset(s) + |Strip(s)|]
  {
    var l := LStrip(s);
    var r := RStrip(l);
    var k := |s| - |l|;
    assert l == s[k..] && AllSpace(s[..k]);
    assert r == l[..|r|] && AllSpace(l[|r|..]);
    assert Strip(s) == r && StripOffset(s) == k;
    SpaceWindow(s, k, r);
  }

  lemma StripDropsSpaceBefore(s: string)
    ensures AllSpace(s[..StripOffset(s)])
  {
  }

  lemma StripDropsSpaceAfter(s: string)
    requires StripOffset(s) + |Strip(s)| <= |s|
    ensures AllSpace(s[StripOffset(s) + |Strip(s)|..])
  {
    var l := LStrip(s);
    SpaceWindow(s, |s| - |l|, RStrip(l));
  }

  /** Trimming whitespace off the front of `s` and then off the back of what is left
      leaves a window of `s` with whitespace on both sides. */
  lemma SpaceWindow(s: string, k: nat, r: string)
    requires k <= |s| && AllSpace(s[..k])
    requires |r| <= |s| - k && r == s[k..][..|r|] && AllSpace(s[k..][|r|..])
    ensures k + |r| <= |s| && r == s[k..k + |r|]
    ensures AllSpace(s[..k]) && AllSpace(s[k + |r|..])
  {
    assert s[k..][..|r|] == s[k..k + |r|];
    assert s[k..][|r|..] == s[k + |r|..];
  }

  lemma {:induction false} LStripSpacePrefix(p: string, t: string)
    requires AllSpace(p)
    requires |t| == 0 || !IsSpace(t[0])
    ensures LStrip(p + t) == t
    decreases |p|
  {
    if |p| > 0 {
      assert (p + t)[1..] == p[1..] + t;
      LStripSpacePrefix(p[1..], t);
    }
  }

  lemma {:induction false} RStripSpaceSuffix(t: string, q: string)
    requires AllSpace(q)
    requires |t| == 0 || !IsSpace(t[|t| - 1])
    ensures RStrip(t + q) == t
    decreases |q|
  {
    if |q| > 0 {
      assert (t + q)[..|t + q| - 1] == t + q[..|q| - 1];
      RStripSpaceSuffix(t, q[..|q| - 1]);
    }
  }

  lemma {:induction false} LStripSpacePrefixAny(p: string, t: string)
    requires AllSpace(p)
    ensures LStrip(p + t) == LStrip(t)
    decreases |p|
  {
    if |p| > 0 {
      assert (p + t)[1..] == p[1..] + t;
      LStripSpacePrefixAny(p[1..], t);
    } else {
      assert p + t == t;
    }
  }

  lemma {:induction false} LStripAppend(x: string, y: string)
    requires LStrip(x) != ""
    ensures LStrip(x + y) == LStrip(x) + y
    decreases |x|
  {
    assert |x| > 0;
    if IsSpace(x[0]) {
      assert (x + y)[1..] == x[1..] + y;
      LStripAppend(x[1..], y);
    }
  }

  lemma {:induction false} RStripSpaceSuffixAny(t: string, q: string)
    requires AllSpace(q)
    ensures RStrip(t + q) == RStrip(t)
    decreases |q|
  {
    if |q| > 0 {
      assert (t + q)[..|t + q| - 1] == t + q[..|q| - 1];
      RStripSpaceSuffixAny(t, q[..|q| - 1]);
    } else {
      assert t + q == t;
    }
  }

  /** Whitespace put in front of a text does not change what `strip` returns. */
  lemma StripIgnoresLeadingSpace(p: string, t: string)
    requires AllSpace(p)
    ensures Strip(p + t) == Strip(t)
  {
    LStripSpacePrefixAny(p, t);
  }

  /** Whitespace put behind a text does not change what `strip` returns. */
  lemma StripIgnoresTrailingSpace(t: string, q: string)
    requires AllSpace(q)
    ensures Strip(t + q) == Strip(t)
  {
    if LStrip(t) != "" {
      LStripAppend(t, q);
      RStripSpaceSuffixAny(LStrip(t), q);
    } else {
      assert t == t[..|t|];
      assert AllSpace(t + q);
      LStripSpacePrefix(t + q, "");
      assert t + q + "" == t + q;
    }
  }

  /** `strip` is determined by its result's shape: whatever is trimmed and surrounded by
      whitespace only is exactly what `strip` returns. */
  lemma StripUnique(p: string, m: string, q: string)
    requires AllSpace(p) && AllSpace(q) && IsTrimmed(m)
    ensures Strip(p + m + q) == m
  {
    if |m| == 0 {
      assert p + m + q == p + q;
      assert AllSpace(p + q);
      LStripSpacePrefix(p + q, "");
      assert p + q + "" == p + q;
    } else {
      assert p + m + q == p + (m + q);
      LStripSpacePrefix(p, m + q);
      RStripSpaceSuffix(m, q);
    }
  }

  /** The same, for a window of one text. */
  lemma StripIdempotent(s: string)
    ensures Strip(Strip(s)) == Strip(s)
  {
    StripTrimmed(Strip(s));
  }

  /** A trimmed text strips to itself. */
  lemma StripTrimmed(m: string)
    requires IsTrimmed(m)
    ensures Strip(m) == m
  {
    assert AllSpace("");
    assert "" + m + "" == m;
    StripUnique("", m, "");
  }

  /** Stripping adds no character. */
  lemma StripKeepsAbsent(s: string, c: char)
    requires c !in s
    ensures c !in Strip(s)
  {
    var r := Strip(s);
    StripWindowOf(s);
    forall k | 0 <= k < |r|
      ensures r[k] != c
    {
      assert r[k] == s[StripOffset(s) + k];
    }
  }

  /** Stripping leaves nothing exactly when the text is all whitespace. */
  lemma StripEmptyIffAllSpace(s: string)
    ensures Strip(s) == "" <==> AllSpace(s)
  {
    StripWindowOf(s);
    var k := StripOffset(s);
    if Strip(s) == "" {
      assert k == |s|;
      assert s[..k] == s;
    }
    if AllSpace(s) {
      assert s + "" == s;
      LStripSpacePrefix(s, "");
    }
  }

  // ---------------------------------------------------------------------------
  // split and join

  /** Occurrences of `c` in `s`. */
  function Count(s: string, c: char): nat {
    if |s| == 0 then 0 else (if s[0] == c then 1 else 0) + Count(s[1..], c)
  }

  /** A character occurs nowhere exactly when it is counted zero times. */
  lemma {:induction false} CountZero(s: string, c: char)
    ensures Count(s, c) == 0 <==> c !in s
  {
    if |s| > 0 {
      CountZero(s[1..], c);
      assert s == [s[0]] + s[1..];
    }
  }

  /** `sep.join(parts)`. */
  function Join(parts: seq<string>, sep: string): string {
    if |parts| == 0 then ""
    else if |parts| == 1 then parts[0]
    else parts[0] + sep + Join(parts[1..], sep)
  }

  lemma JoinConsHead(x: string, y: string, rest: seq<string>, sep: string)
    ensures Join([x + y] + rest, sep) == x + Join([y] + rest, sep)
  {
    if |rest| > 0 {
      assert ([x + y] + rest)[1..] == rest;
      assert ([y] + rest)[1..] == rest;
    }
  }

  /** Joining a first part onto a non-empty rest puts one separator between them. */
  lemma JoinCons(x: string, rest: seq<string>, sep: string)
    requires |rest| > 0
    ensures Join([x] + rest, sep) == x + sep + Join(rest, sep)
  {
    assert ([x] + rest)[1..] == rest;
  }

  /** Joining two non-empty lists of parts is joining each and putting one separator between. */
  lemma {:induction false} JoinAppend(a: seq<string>, b: seq<string>, sep: string)
    requires |a| > 0 && |b| > 0
    ensures Join(a + b, sep) == Join(a, sep) + sep + Join(b, sep)
    decreases |a|
  {
    if |a| == 1 {
      assert a + b == [a[0]] + b;
      JoinCons(a[0], b, sep);
    } else {
      assert a + b == [a[0]] + (a[1..] + b);
      JoinCons(a[0], a[1..] + b, sep);
      JoinAppend(a[1..], b, sep);
      JoinCons(a[0], a[1..], sep);
      assert a == [a[0]] + a[1..];
    }
  }

  /** `s.split(sep)` for a one-character separator: one more piece than separators, none of
      them holding the separator, and joining them back gives `s`. */
  function Split(s: string, sep: char): (parts: seq<string>)
    ensures |parts| == Count(s, sep) + 1
    ensures forall i :: 0 <= i < |parts| ==> sep !in parts[i]
    ensures Join(parts, [sep]) == s
    decreases |s|
  {
    if |s| == 0 then [""]
    else if s[0] == sep then
      var rest := Split(s[1..], sep);
      assert ([""] + rest)[1..] == rest;
      assert s == "" + [sep] + s[1..];
      [""] + rest
    else
      var rest := Split(s[1..], sep);
      JoinConsHead([s[0]], rest[0], rest[1..], [sep]);
      assert [rest[0]] + rest[1..] == rest;
      assert s == [s[0]] + s[1..];
      [[s[0]] + rest[0]] + rest[1..]
  }

  lemma {:induction false} SplitNoSep(s: string, sep: char)
    requires sep !in s
    ensures Split(s, sep) == [s]
    decreases |s|
  {
    if |s| > 0 {
      SplitNoSep(s[1..], sep);
      assert [s[0]] + s[1..] == s;
    }
  }

  /** Splitting at a separator splits the two sides independently. */
  lemma {:induction false} SplitConcat(a: string, b: string, sep: char)
    ensures Split(a + [sep] + b, sep) == Split(a, sep) + Split(b, sep)
    decreases |a|
  {
    SeparatedShape(a, sep, b);
    if |a| == 0 {
      SplitAtSep(b, sep);
    } else {
      SplitConcat(a[1..], b, sep);
      SplitConcatStep(a[0], a[1..], a[1..] + [sep] + b, b, sep);
    }
  }

  /** The inductive step of SplitConcat, for one more leading character. */
  lemma SplitConcatStep(c: char, a: string, t: string, b: string, sep: char)
    requires Split(t, sep) == Split(a, sep) + Split(b, sep)
    ensures Split([c] + t, sep) == Split([c] + a, sep) + Split(b, sep)
  {
    if c == sep {
      SplitConcatSepStep(a, t, b, sep);
    } else {
      SplitConcatOtherStep(c, a, t, b, sep);
    }
  }

  lemma SplitConcatSepStep(a: string, t: string, b: string, sep: char)
    requires Split(t, sep) == Split(a, sep) + Split(b, sep)
    ensures Split([sep] + t, sep) == Split([sep] + a, sep) + Split(b, sep)
  {
    SplitAtSep(t, sep);
    SplitAtSep(a, sep);
    ConsAssoc("", Split(a, sep), Split(b, sep));
  }

  lemma SplitConcatOtherStep(c: char, a: string, t: string, b: string, sep: char)
    requires c != sep
    requires Split(t, sep) == Split(a, sep) + Split(b, sep)
    ensures Split([c] + t, sep) == Split([c] + a, sep) + Split(b, sep)
  {
    SplitAtOther(c, t, sep);
    SplitAtOther(c, a, sep);
    ExtendFirst([c], Split(a, sep), Split(b, sep));
  }

  lemma SeparatedShape(a: string, sep: char, b: string)
    ensures |a| == 0 ==> a + [sep] + b == [sep] + b
    ensures |a| > 0 ==> a == [a[0]] + a[1..] && a + [sep] + b == [a[0]] + (a[1..] + [sep] + b)
  {
  }

  /** How the front of `a + b` looks, stated apart from any function of it. */
  lemma ConcatShape<T>(a: seq<T>, b: seq<T>)
    ensures |a| == 0 ==> a + b == b
    ensures |a| > 0 ==> (a + b)[0] == a[0] && (a + b)[1..] == a[1..] + b
  {
  }

  /** How the front of `a + [x] + b` looks. */
  lemma AroundShape<T>(a: seq<T>, x: T, b: seq<T>)
    ensures |a| == 0 ==> (a + [x] + b)[0] == x && (a + [x] + b)[1..] == b
    ensures |a| > 0 ==> (a + [x] + b)[0] == a[0] && (a + [x] + b)[1..] == a[1..] + [x] + b
  {
  }

  lemma ConcatAssoc<T>(x: seq<T>, y: seq<T>, z: seq<T>)
    ensures x + (y + z) == (x + y) + z
  {
  }

  lemma ConsAssoc<T>(x: T, p: seq<T>, q: seq<T>)
    ensures [x] + (p + q) == ([x] + p) + q
  {
  }

  /** Extending the first piece of `r + b` extends the first piece of `r`. */
  lemma ExtendFirst(x: string, r: seq<string>, b: seq<string>)
    requires |r| > 0
    ensures [x + (r + b)[0]] + (r + b)[1..] == ([x + r[0]] + r[1..]) + b
  {
    assert (r + b)[1..] == r[1..] + b;
  }

  /** A leading separator gives an empty first piece. */
  lemma SplitAtSep(t: string, sep: char)
    ensures Split([sep] + t, sep) == [""] + Split(t, sep)
  {
    assert ([sep] + t)[1..] == t;
  }

  /** A leading non-separator starts the first piece. */
  lemma SplitAtOther(c: char, t: string, sep: char)
    requires c != sep
    ensures Split([c] + t, sep) == [[c] + Split(t, sep)[0]] + Split(t, sep)[1..]
  {
    assert ([c] + t)[1..] == t;
  }

  /** Joining pieces that do not contain the separator and splitting again gives the pieces back. */
  lemma {:induction false} SplitJoin(parts: seq<string>, sep: char)
    requires |parts| > 0
    requires forall i :: 0 <= i < |parts| ==> sep !in parts[i]
    ensures Split(Join(parts, [sep]), sep) == parts
    decreases |parts|
  {
    if |parts| == 1 {
      SplitNoSep(parts[0], sep);
    } else {
      SplitJoin(parts[1..], sep);
      SplitNoSep(parts[0], sep);
      SplitConcat(parts[0], Join(parts[1..], [sep]), sep);
      assert [parts[0]] + parts[1..] == parts;
    }
  }

  /** The lines of `s`, as `s.split('\n')` gives them. */
  function Lines(s: string): seq<string> {
    Split(s, '\n')
  }

  /** The lines of a newline-joined text are the lines of its parts, in order. */
  lemma {:induction false} LinesOfJoin(parts: seq<string>)
    requires |parts| > 0
    ensures Lines(Join(parts, "\n")) == LinesOfAll(parts)
    decreases |parts|
  {
    if |parts| > 1 {
      LinesOfJoin(parts[1..]);
      SplitConcat(parts[0], Join(parts[1..], "\n"), '\n');
    }
  }

  /** The lines of each part, concatenated. */
  function LinesOfAll(parts: seq<string>): seq<string> {
    if |parts| == 0 then [] else Lines(parts[0]) + LinesOfAll(parts[1..])
  }

  lemma {:induction false} LinesOfAllAppend(a: seq<string>, b: seq<string>)
    ensures LinesOfAll(a + b) == LinesOfAll(a) + LinesOfAll(b)
    decreases |a|
  {
    if |a| > 0 {
      assert (a + b)[0] == a[0];
      assert (a + b)[1..] == a[1..] + b;
      LinesOfAllAppend(a[1..], b);
      calc {
        LinesOfAll(a + b);
        Lines(a[0]) + LinesOfAll(a[1..] + b);
        Lines(a[0]) + (LinesOfAll(a[1..]) + LinesOfAll(b));
      }
    } else {
      assert a + b == b;
    }
  }

  // ---------------------------------------------------------------------------
  // replace, search

  /** `s.replace(pat, rep)`: left to right, non-overlapping. */
  function ReplaceAll(s: string, pat: string, rep: string): string
    requires |pat| > 0
    decreases |s|
  {
    if |s| < |pat| then s
    else if s[..|pat|] == pat then rep + ReplaceAll(s[|pat|..], pat, rep)
    else [s[0]] + ReplaceAll(s[1..], pat, rep)
  }

  /** After replacing a one-character pattern by text without that character, the character is gone. */
  lemma {:induction false} ReplaceRemovesChar(s: string, c: char, rep: string)
    requires c !in rep
    ensures c !in ReplaceAll(s, [c], rep)
    decreases |s|
  {
    if |s| >= 1 {
      ReplaceRemovesChar(s[1..], c, rep);
      if s[..1] != [c] {
        assert s[0] != c;
      }
    }
  }

  /** Every occurrence of `c` dropped, the other characters kept in order. */
  function RemoveChar(s: string, c: char): (r: string)
    ensures |r| <= |s|
    ensures c !in r
  {
    if |s| == 0 then ""
    else if s[0] == c then RemoveChar(s[1..], c)
    else [s[0]] + RemoveChar(s[1..], c)
  }

  /** `s.replace(c, '')` for one character `c` is removing every `c`. */
  lemma {:induction false} ReplaceByNothing(s: string, c: char)
    ensures ReplaceAll(s, [c], "") == RemoveChar(s, c)
    decreases |s|
  {
    if |s| >= 1 {
      ReplaceByNothing(s[1..], c);
      if s[..1] == [c] {
        assert s[0] == c;
      } else {
        assert s[0] != c;
      }
    }
  }

  /** Replacing never introduces a character that neither the input nor the replacement holds. */
  lemma {:induction false} ReplaceKeepsAbsent(s: string, pat: string, rep: string, c: char)
    requires |pat| > 0
    requires c !in s && c !in rep
    ensures c !in ReplaceAll(s, pat, rep)
    decreases |s|
  {
    if |s| >= |pat| {
      if s[..|pat|] == pat {
        ReplaceKeepsAbsent(s[|pat|..], pat, rep, c);
      } else {
        ReplaceKeepsAbsent(s[1..], pat, rep, c);
      }
    }
  }

  /** Replacing a one-character pattern by one character acts position by position. */
  lemma {:induction false} ReplaceCharAt(s: string, c: char, d: char)
    ensures |ReplaceAll(s, [c], [d])| == |s|
    ensures forall i :: 0 <= i < |s| ==> ReplaceAll(s, [c], [d])[i] == if s[i] == c then d else s[i]
    decreases |s|
  {
    if |s| >= 1 {
      ReplaceCharAt(s[1..], c, d);
      assert s[..1] == [s[0]];
      var r := ReplaceAll(s, [c], [d]);
      var t := ReplaceAll(s[1..], [c], [d]);
      assert r == [if s[0] == c then d else s[0]] + t;
      forall i | 0 <= i < |s|
        ensures r[i] == if s[i] == c then d else s[i]
      {
        if i > 0 {
          assert r[i] == t[i - 1] && s[i] == s[1..][i - 1];
        }
      }
    }
  }

  /** Replacing a one-character pattern by one character keeps the length. */
  lemma {:induction false} ReplaceCharLength(s: string, c: char, d: char)
    ensures |ReplaceAll(s, [c], [d])| == |s|
    decreases |s|
  {
    if |s| >= 1 {
      ReplaceCharLength(s[1..], c, d);
    }
  }

  /** A one-character pattern that does not occur leaves the text unchanged. */
  lemma {:induction false} ReplaceAbsentChar(s: string, c: char, rep: string)
    requires c !in s
    ensures ReplaceAll(s, [c], rep) == s
    decreases |s|
  {
    if |s| >= 1 {
      assert s[..1] == [s[0]];
      ReplaceAbsentChar(s[1..], c, rep);
      assert [s[0]] + s[1..] == s;
    }
  }

  /** Text that cannot start a match is copied through unchanged. */
  lemma {:induction false} ReplaceSkipsPrefix(x: string, t: string, pat: string, rep: string)
    requires |pat| > 0 && pat[0] !in x
    ensures ReplaceAll(x + t, pat, rep) == x + ReplaceAll(t, pat, rep)
    decreases |x|
  {
    if |x| > 0 {
      var s := x + t;
      if |s| >= |pat| {
        assert s[..|pat|][0] == x[0];
        assert s[1..] == x[1..] + t;
        ReplaceSkipsPrefix(x[1..], t, pat, rep);
        assert [x[0]] + (x[1..] + ReplaceAll(t, pat, rep)) == x + ReplaceAll(t, pat, rep);
      } else {
        assert |t| < |pat|;
      }
    } else {
      assert x + t == t;
    }
  }

  /** A match at the start is replaced and the scan resumes after it. */
  lemma ReplaceAtStart(pat: string, y: string, rep: string)
    requires |pat| > 0
    ensures ReplaceAll(pat + y, pat, rep) == rep + ReplaceAll(y, pat, rep)
  {
    assert (pat + y)[..|pat|] == pat;
    assert (pat + y)[|pat|..] == y;
  }

  /** A pattern of two equal characters that does not occur, with no first character either, changes nothing. */
  /** Replacing a doubled character skips a single one not followed by another. */
  lemma ReplaceLoneChar(c: char, y: string, rep: string)
    requires |y| == 0 || y[0] != c
    ensures ReplaceAll([c] + y, [c, c], rep) == [c] + ReplaceAll(y, [c, c], rep)
  {
    var s := [c] + y;
    if |s| >= 2 {
      assert s[..2][1] == y[0];
      assert s[1..] == y;
    }
  }

  lemma ReplaceAbsentPair(s: string, c: char, rep: string)
    requires c !in s
    ensures ReplaceAll(s, [c, c], rep) == s
    decreases |s|
  {
    if |s| >= 2 {
      assert s[..2] != [c, c] by { assert s[..2][0] == s[0]; }
      ReplaceAbsentPair(s[1..], c, rep);
      assert [s[0]] + s[1..] == s;
    }
  }

  predicate StartsWith(s: string, prefix: string) {
    |prefix| <= |s| && s[..|prefix|] == prefix
  }

  predicate EndsWith(s: string, suffix: string) {
    |suffix| <= |s| && s[|s| - |suffix|..] == suffix
  }

  /** `needle in s`. */
  predicate Contains(s: string, needle: string)
    decreases |s|
  {
    StartsWith(s, needle) || (|s| > 0 && Contains(s[1..], needle))
  }

  /** Finding a string finds every prefix of it too. */
  lemma {:induction false} ContainsPrefix(s: string, needle: string, more: string)
    requires Contains(s, needle + more)
    ensures Contains(s, needle)
    decreases |s|
  {
    if StartsWith(s, needle + more) {
      assert s[..|needle|] == (needle + more)[..|needle|];
    } else {
      ContainsPrefix(s[1..], needle, more);
    }
  }

  // ---------------------------------------------------------------------------
  // case

  predicate IsUpperLetter(c: char) { 'A' <= c <= 'Z' }
  predicate IsLowerLetter(c: char) { 'a' <= c <= 'z' }
  predicate IsLetter(c: char) { IsUpperLetter(c) || IsLowerLetter(c) }
  predicate IsDigit(c: char) { '0' <= c <= '9' }

  function ToLowerChar(c: char): char {
    if IsUpperLetter(c) then (c as int + 32) as char else c
  }

  function ToUpperChar(c: char): char {
    if IsLowerLetter(c) then (c as int - 32) as char else c
  }

  /** `str.lower()`. */
  function Lower(s: string): (r: string)
    ensures |r| == |s|
    ensures forall i :: 0 <= i < |s| ==> r[i] == ToLowerChar(s[i])
  {
    seq(|s|, i requires 0 <= i < |s| => ToLowerChar(s[i]))
  }

  lemma LowerIdempotent(s: string)
    ensures Lower(Lower(s)) == Lower(s)
  {
  }

  /** `str.isupper()`, scanned left to right: `seenUpper` records a cased character seen so far;
      a lower-case letter fails the test. */
  predicate IsUpperFrom(s: string, seenUpper: bool)
    decreases |s|
  {
    if |s| == 0 then seenUpper
    else !IsLowerLetter(s[0]) && IsUpperFrom(s[1..], seenUpper || IsUpperLetter(s[0]))
  }

  predicate IsUpperText(s: string) {
    IsUpperFrom(s, false)
  }

  /** `str.isupper()` as Python documents it: at least one cased character, and no lower-case one. */
  lemma IsUpperTextMeaning(s: string)
    ensures IsUpperText(s) <==>
      (exists i :: 0 <= i < |s| && IsUpperLetter(s[i])) && forall i :: 0 <= i < |s| ==> !IsLowerLetter(s[i])
  {
    IsUpperFromMeaning(s, false);
  }

  lemma {:induction false} IsUpperFromMeaning(s: string, seenUpper: bool)
    ensures IsUpperFrom(s, seenUpper) <==>
      (seenUpper || exists i :: 0 <= i < |s| && IsUpperLetter(s[i])) && forall i :: 0 <= i < |s| ==> !IsLowerLetter(s[i])
    decreases |s|
  {
    if |s| > 0 {
      var t := s[1..];
      IsUpperFromMeaning(t, seenUpper || IsUpperLetter(s[0]));
      assert forall i :: 0 <= i < |t| ==> t[i] == s[i + 1];
      if exists i :: 0 <= i < |s| && IsUpperLetter(s[i]) {
        var i :| 0 <= i < |s| && IsUpperLetter(s[i]);
        if i > 0 {
          assert IsUpperLetter(t[i - 1]);
        }
      }
      if forall i :: 0 <= i < |t| ==> !IsLowerLetter(t[i]) {
        if !IsLowerLetter(s[0]) {
          assert forall i :: 0 <= i < |s| ==> !IsLowerLetter(s[i]) by {
            forall i | 0 <= i < |s| ensures !IsLowerLetter(s[i]) {
              if i > 0 {
                assert s[i] == t[i - 1];
              }
            }
          }
        }
      }
    }
  }

  /** `str.title()` from a position whose preceding character is (`prevCased`) or is not a letter. */
  function TitleFrom(s: string, prevCased: bool): string
    decreases |s|
  {
    if |s| == 0 then ""
    else if IsLetter(s[0]) then
      [if prevCased then ToLowerChar(s[0]) else ToUpperChar(s[0])] + TitleFrom(s[1..], true)
    else [s[0]] + TitleFrom(s[1..], false)
  }

  /** `str.title()`: a letter is upper-cased when the character before it is not a letter
      (or it starts the text) and lower-cased otherwise; other characters are kept. */
  function Title(s: string): (r: string)
    ensures |r| == |s|
    ensures forall i :: 0 <= i < |s| && !IsLetter(s[i]) ==> r[i] == s[i]
    ensures forall i :: 0 <= i < |s| && IsLetter(s[i]) ==>
      r[i] == if i > 0 && IsLetter(s[i - 1]) then ToLowerChar(s[i]) else ToUpperChar(s[i])
  {
    TitleFromSpec(s, false);
    TitleFrom(s, false)
  }

  lemma {:induction false} TitleFromSpec(s: string, prevCased: bool)
    ensures |TitleFrom(s, prevCased)| == |s|
    ensures forall i :: 0 <= i < |s| && !IsLetter(s[i]) ==> TitleFrom(s, prevCased)[i] == s[i]
    ensures forall i :: 0 <= i < |s| && IsLetter(s[i]) ==>
      TitleFrom(s, prevCased)[i] ==
        if (if i == 0 then prevCased else IsLetter(s[i - 1])) then ToLowerChar(s[i]) else ToUpperChar(s[i])
    decreases |s|
  {
    if |s| > 0 {
      TitleFromSpec(s[1..], IsLetter(s[0]));
    }
  }

  /** Title-casing twice is title-casing once. */
  lemma TitleIdempotent(s: string)
    ensures Title(Title(s)) == Title(s)
  {
    var t := Title(s);
    forall i | 0 <= i < |s|
      ensures IsLetter(t[i]) == IsLetter(s[i])
    {
      if IsLetter(s[i]) {
        TitleAt(s, i);
        CaseMapsKeepLetters(s[i]);
      }
    }
    forall i | 0 <= i < |s| && IsLetter(s[i])
      ensures Title(t)[i] == t[i]
    {
      TitleAt(s, i);
      TitleAt(t, i);
      CaseMapsKeepLetters(s[i]);
    }
  }

  /** Title-casing introduces no character that is not a letter. */
  lemma TitleKeepsNonLetterOut(s: string, c: char)
    requires !IsLetter(c) && c !in s
    ensures c !in Title(s)
  {
    var t := Title(s);
    forall i | 0 <= i < |t|
      ensures t[i] != c
    {
      if IsLetter(s[i]) {
        TitleAt(s, i);
        CaseMapsKeepLetters(s[i]);
      }
    }
  }

  /** Title-casing changes letter case only: lower-casing undoes the difference. */
  lemma LowerTitle(s: string)
    ensures Lower(Title(s)) == Lower(s)
  {
    var t := Title(s);
    forall i | 0 <= i < |s|
      ensures ToLowerChar(t[i]) == ToLowerChar(s[i])
    {
      if IsLetter(s[i]) {
        TitleAt(s, i);
        CaseMapsKeepLetters(s[i]);
      }
    }
  }

  lemma TitleAt(s: string, i: int)
    requires 0 <= i < |s| && IsLetter(s[i])
    ensures Title(s)[i] == if i > 0 && IsLetter(s[i - 1]) then ToLowerChar(s[i]) else ToUpperChar(s[i])
  {
  }

  lemma CaseMapsKeepLetters(c: char)
    requires IsLetter(c)
    ensures IsLetter(ToLowerChar(c)) && IsLetter(ToUpperChar(c))
    ensures ToLowerChar(ToLowerChar(c)) == ToLowerChar(c) && ToUpperChar(ToUpperChar(c)) == ToUpperChar(c)
    ensures ToLowerChar(ToUpperChar(c)) == ToLowerChar(c) && ToUpperChar(ToLowerChar(c)) == ToUpperChar(c)
  {
  }

  // ---------------------------------------------------------------------------
  // numbers

  function DigitChar(d: nat): char
    requires d < 10
  {
    "0123456789"[d]
  }

  function DigitValue(c: char): nat
    requires IsDigit(c)
  {
    c as int - '0' as int
  }

  predicate AllDigits(s: string) {
    forall i :: 0 <= i < |s| ==> IsDigit(s[i])
  }

  /** `str(n)` for a natural number: decimal digits, no leading zero. */
  function NatToString(n: nat): (s: string)
    ensures |s| >= 1 && AllDigits(s)
    ensures |s| > 1 ==> s[0] != '0'
  {
    if n < 10 then [DigitChar(n)] else NatToString(n / 10) + [DigitChar(n % 10)]
  }

  /** Reads a decimal numeral. */
  function ParseDigits(s: string): nat
    requires AllDigits(s)
  {
    if |s| == 0 then 0 else 10 * ParseDigits(s[..|s| - 1]) + DigitValue(s[|s| - 1])
  }

  /** The numeral `str(n)` reads back as `n`. */
  lemma {:induction false} NatToStringRoundTrip(n: nat)
    ensures ParseDigits(NatToString(n)) == n
  {
    if n >= 10 {
      NatToStringRoundTrip(n / 10);
      var s := NatToString(n);
      assert s[..|s| - 1] == NatToString(n / 10);
    }
  }
}
