/**
 * The Python string operations the alert parser relies on, over `string`
 * (= seq<char>): str.isspace, str.replace with one-character arguments,
 * the `in` test, str.split() without arguments, ' '.join and str.strip().
 */
module Text {
  import opened Wrappers

  /** str.isspace(): the characters split(), strip(), float() and the regex class \s treat as whitespace. */
  predicate IsSpace(c: char) {
    var n := c as int;
    (9 <= n <= 13) || (28 <= n <= 32) || n == 0x85 || n == 0xA0 || n == 0x1680
    || (0x2000 <= n <= 0x200A) || n == 0x2028 || n == 0x2029 || n == 0x202F
    || n == 0x205F || n == 0x3000
  }

  predicate IsDigit(c: char) {
    '0' <= c <= '9'
  }

  predicate NotSpace(c: char) {
    !IsSpace(c)
  }

  predicate NoSpace(s: string) {
    forall i :: 0 <= i < |s| ==> !IsSpace(s[i])
  }

  /** Number of occurrences of `c` in `s`. */
  function Count(s: string, c: char): nat {
    if s == [] then 0 else (if s[0] == c then 1 else 0) + Count(s[1..], c)
  }

  /** s.replace(c, ''): every `c` dropped, everything else kept in order. */
  function RemoveChar(s: string, c: char): (r: string)
    ensures |r| == |s| - Count(s, c)
    ensures forall x :: x in r <==> x in s && x != c
  {
    if s == [] then []
    else
      assert forall x :: x in s <==> x == s[0] || x in s[1..];
      (if s[0] == c then [] else [s[0]]) + RemoveChar(s[1..], c)
  }

  /** s.replace(a, b): every `a` replaced by `b`, position by position. */
  function ReplaceChar(s: string, a: char, b: char): (r: string)
    ensures |r| == |s|
    ensures forall i :: 0 <= i < |s| ==> r[i] == if s[i] == a then b else s[i]
  {
    if s == [] then [] else [if s[0] == a then b else s[0]] + ReplaceChar(s[1..], a, b)
  }

  /** s.startswith(p) */
  predicate StartsWith(s: string, p: string) {
    |p| <= |s| && s[..|p|] == p
  }

  /** Python's `p in s` for strings: `p` occurs somewhere in `s`. */
  predicate Contains(s: string, p: string)
    decreases |s|
  {
    StartsWith(s, p) || (s != [] && Contains(s[1..], p))
  }

  /** Index of the first `c` in `s`, or |s| when there is none. */
  function IndexOf(s: string, c: char): (k: nat)
    ensures k <= |s|
    ensures k < |s| ==> s[k] == c
    ensures forall j :: 0 <= j < k ==> s[j] != c
    ensures k == |s| <==> c !in s
  {
    if s == [] then 0 else if s[0] == c then 0 else 1 + IndexOf(s[1..], c)
  }

  /** The end of the longest run of characters satisfying `p` that starts at `i`. */
  function RunEnd(s: string, i: nat, p: char -> bool): (k: nat)
    requires i <= |s|
    ensures i <= k <= |s|
    ensures forall j :: i <= j < k ==> p(s[j])
    ensures k < |s| ==> !p(s[k])
    decreases |s| - i
  {
    if i < |s| && p(s[i]) then RunEnd(s, i + 1, p) else i
  }

  /** str.split() with no argument: the maximal runs of non-whitespace, in order. */
  function Words(s: string): (ws: seq<string>)
    ensures forall w :: w in ws ==> w != [] && NoSpace(w)
    decreases |s|
  {
    if s == [] then []
    else if IsSpace(s[0]) then Words(s[1..])
    else
      var k := RunEnd(s, 0, NotSpace);
      [s[..k]] + Words(s[k..])
  }

  /** sep.join(ws) */
  function Join(ws: seq<string>, sep: string): string {
    if ws == [] then [] else if |ws| == 1 then ws[0] else ws[0] + sep + Join(ws[1..], sep)
  }

  /** ' '.join(s.split()): every run of whitespace becomes one space, none at the ends. */
  function CollapseWhitespace(s: string): string {
    Join(Words(s), " ")
  }

  /** s.lstrip() */
  function TrimStart(s: string): (r: string)
    ensures |r| <= |s| && r == s[|s| - |r|..]
    ensures forall j :: 0 <= j < |s| - |r| ==> IsSpace(s[j])
    ensures r == [] || !IsSpace(r[0])
  {
    if s != [] && IsSpace(s[0]) then TrimStart(s[1..]) else s
  }

  /** s.rstrip() */
  function TrimEnd(s: string): (r: string)
    ensures |r| <= |s| && r == s[..|r|]
    ensures forall j :: |r| <= j < |s| ==> IsSpace(s[j])
    ensures r == [] || !IsSpace(r[|r| - 1])
  {
    if s != [] && IsSpace(s[|s| - 1]) then TrimEnd(s[..|s| - 1]) else s
  }

  /** s.strip(): leading and trailing whitespace removed, the middle untouched. */
  function Strip(s: string): (r: string)
    ensures r == [] || (!IsSpace(r[0]) && !IsSpace(r[|r| - 1]))
  {
    TrimEnd(TrimStart(s))
  }

  /**
   * re.search: the match at the leftmost start position in [i, n] where
   * `matchAt` (one pattern tried at one position) succeeds.
   */
  function Search(n: nat, matchAt: nat -> Option<string>, i: nat): (r: Option<string>)
    ensures r.Some? ==> exists k :: i <= k <= n && matchAt(k) == r && forall j :: i <= j < k ==> matchAt(j).None?
    ensures r.None? <==> forall k :: i <= k <= n ==> matchAt(k).None?
    decreases n + 1 - i
  {
    if i > n then None else if matchAt(i).Some? then matchAt(i) else Search(n, matchAt, i + 1)
  }

  /** The position of the match re.search returns. */
  lemma {:induction false} SearchPosition(n: nat, matchAt: nat -> Option<string>, i: nat) returns (k: nat)
    requires Search(n, matchAt, i).Some?
    ensures i <= k <= n && matchAt(k) == Search(n, matchAt, i)
    ensures forall j :: i <= j < k ==> matchAt(j).None?
    decreases n + 1 - i
  {
    if matchAt(i).Some? {
      k := i;
    } else {
      k := SearchPosition(n, matchAt, i + 1);
    }
  }

  /**
   * re.search described by where the pattern matches: when the matcher
   * succeeds exactly at the positions `starts` holds for, re.search finds
   * nothing exactly when no position starts a match, and otherwise returns
   * the match at the leftmost one.
   */
  lemma SearchSpec(n: nat, matchAt: nat -> Option<string>, starts: nat -> bool) returns (k: nat)
    requires forall i: nat :: matchAt(i).Some? <==> starts(i)
    requires forall i: nat :: starts(i) ==> i <= n
    ensures Search(n, matchAt, 0).None? <==> forall i: nat :: !starts(i)
    ensures Search(n, matchAt, 0).Some? ==>
              starts(k) && matchAt(k) == Search(n, matchAt, 0) && forall j: nat :: j < k ==> !starts(j)
  {
    if Search(n, matchAt, 0).Some? {
      k := SearchPosition(n, matchAt, 0);
    } else {
      k := 0;
      forall i: nat ensures !starts(i) {
        if i <= n { assert matchAt(i).None?; }
      }
    }
  }

  /** The pattern text `tag` occurs at position i. */
  predicate LabelAt(s: string, i: nat, tag: string) {
    i + |tag| <= |s| && s[i..i + |tag|] == tag
  }

  /** `\s*` can match s[a..b]: every character in between is whitespace. */
  predicate Blanks(s: string, a: nat, b: nat) {
    a <= b <= |s| && forall j :: a <= j < b ==> IsSpace(s[j])
  }

  /** A greedy `\d+` stops only at the end of the text or at a character that is not a digit. */
  predicate DigitsEnd(s: string, e: nat) {
    e == |s| || (e < |s| && !IsDigit(s[e]))
  }

  /** A run of `p` from a cannot reach past a character outside `p`. */
  lemma RunEndBefore(s: string, a: nat, j: nat, p: char -> bool)
    requires a <= j < |s| && !p(s[j])
    ensures RunEnd(s, a, p) <= j
  {
  }

  lemma LabelStarts(s: string, i: nat, tag: string)
    ensures LabelAt(s, i, tag) <==> i <= |s| && StartsWith(s[i..], tag)
  {
    if (i <= |s| && StartsWith(s[i..], tag)) || LabelAt(s, i, tag) {
      assert s[i..][..|tag|] == s[i..i + |tag|];
    }
  }

  /** A run of `p` that stops at a character outside `p` is the run RunEnd finds: greedy repetition has one end. */
  lemma RunEndIs(s: string, a: nat, w: nat, p: char -> bool)
    requires a <= w < |s| && (forall j :: a <= j < w ==> p(s[j])) && !p(s[w])
    ensures RunEnd(s, a, p) == w
  {
  }

  /** The same for the whitespace `\s*` skips. */
  lemma BlanksEnd(s: string, a: nat, w: nat)
    requires Blanks(s, a, w) && w < |s| && !IsSpace(s[w])
    ensures RunEnd(s, a, IsSpace) == w
  {
    RunEndIs(s, a, w, IsSpace);
  }

  // ---------------------------------------------------------------------------
  // Lemmas

  /** strip() returns the slice s[i..j] of its argument, with only whitespace cut from either end. */
  lemma StripIsTrimmedSlice(s: string) returns (i: nat, j: nat)
    ensures i <= j <= |s| && Strip(s) == s[i..j]
    ensures forall k :: 0 <= k < i ==> IsSpace(s[k])
    ensures forall k :: j <= k < |s| ==> IsSpace(s[k])
  {
    var t := TrimStart(s);
    var u := TrimEnd(t);
    i, j := |s| - |t|, |s| - |t| + |u|;
    SliceOfSuffix(s, i, |u|);
    SpacesOfSuffix(s, i, |u|);
  }

  lemma SliceOfSuffix(s: string, i: nat, n: nat)
    requires i + n <= |s|
    ensures s[i..][..n] == s[i..i + n]
  {
  }

  lemma SpacesOfSuffix(s: string, i: nat, m: nat)
    requires i + m <= |s|
    requires forall k :: m <= k < |s| - i ==> IsSpace(s[i..][k])
    ensures forall k :: i + m <= k < |s| ==> IsSpace(s[k])
  {
    forall k | i + m <= k < |s| ensures IsSpace(s[k]) {
      assert s[k] == s[i..][k - i];
    }
  }

  /** strip() leaves alone a string that neither starts nor ends with whitespace. */
  lemma StripUnchanged(s: string)
    requires s == [] || (!IsSpace(s[0]) && !IsSpace(s[|s| - 1]))
    ensures Strip(s) == s
  {
  }

  /** A leading blank is removed by strip(). */
  lemma StripLeadingSpace(s: string)
    ensures Strip(" " + s) == Strip(s)
  {
    assert (" " + s)[1..] == s;
  }

  lemma {:induction false} CountConcat(a: string, b: string, c: char)
    ensures Count(a + b, c) == Count(a, c) + Count(b, c)
  {
    if a == [] {
      assert a + b == b;
    } else {
      assert (a + b)[1..] == a[1..] + b;
      CountConcat(a[1..], b, c);
    }
  }

  lemma {:induction false} CountZero(s: string, c: char)
    ensures Count(s, c) == 0 <==> c !in s
  {
    if s != [] {
      CountZero(s[1..], c);
      assert c in s <==> s[0] == c || c in s[1..];
    }
  }

  lemma {:induction false} RemoveCharConcat(a: string, b: string, c: char)
    ensures RemoveChar(a + b, c) == RemoveChar(a, c) + RemoveChar(b, c)
  {
    if a == [] {
      assert a + b == b;
    } else {
      assert (a + b)[1..] == a[1..] + b;
      RemoveCharConcat(a[1..], b, c);
    }
  }

  lemma ReplaceCharConcat(a: string, b: string, x: char, y: char)
    ensures ReplaceChar(a + b, x, y) == ReplaceChar(a, x, y) + ReplaceChar(b, x, y)
  {
    var l, r := ReplaceChar(a + b, x, y), ReplaceChar(a, x, y) + ReplaceChar(b, x, y);
    assert |l| == |r|;
    forall i | 0 <= i < |l| ensures l[i] == r[i] {
      if i < |a| { assert (a + b)[i] == a[i]; } else { assert (a + b)[i] == b[i - |a|]; }
    }
  }

  /** Replacing a character that does not occur changes nothing. */
  lemma ReplaceCharAbsent(s: string, x: char, y: char)
    requires x !in s
    ensures ReplaceChar(s, x, y) == s
  {
    var r := ReplaceChar(s, x, y);
    assert forall i :: 0 <= i < |s| ==> r[i] == s[i];
  }

  /** Removing a character that does not occur changes nothing. */
  lemma {:induction false} RemoveCharAbsent(s: string, c: char)
    requires c !in s
    ensures RemoveChar(s, c) == s
  {
    if s != [] {
      assert c !in s[1..];
      RemoveCharAbsent(s[1..], c);
    }
  }

  /** `p in s` finds every character of `p` in `s`. */
  lemma {:induction false} ContainsChar(s: string, p: string, c: char)
    requires Contains(s, p) && c in p
    ensures c in s
  {
    if StartsWith(s, p) {
      assert c in s[..|p|];
    } else {
      ContainsChar(s[1..], p, c);
    }
  }

  /** The tokens of "d t" (two tokens joined by one space) are d and t. */
  lemma WordsOfTwo(d: string, t: string)
    requires d != [] && NoSpace(d) && t != [] && NoSpace(t)
    ensures Words(d + " " + t) == [d, t]
  {
    var s := d + " " + t;
    var k := RunEnd(s, 0, NotSpace);
    assert s[|d|] == ' ';
    assert k == |d|;
    assert s[..k] == d;
    assert s[k..] == " " + t;
    assert (" " + t)[1..] == t;
    WordsOfOne(t);
  }

  /** A single token splits to itself. */
  lemma WordsOfOne(t: string)
    requires t != [] && NoSpace(t)
    ensures Words(t) == [t]
  {
    var k := RunEnd(t, 0, NotSpace);
    assert k == |t|;
    assert t[..k] == t && t[k..] == [];
  }

  /** A token followed by whitespace (or nothing) is split off first. */
  lemma WordsOfTokenThen(d: string, rest: string)
    requires d != [] && NoSpace(d)
    requires rest == [] || IsSpace(rest[0])
    ensures Words(d + rest) == [d] + Words(rest)
  {
    var s := d + rest;
    var k := RunEnd(s, 0, NotSpace);
    if rest != [] {
      assert s[|d|] == rest[0];
    }
    assert k == |d|;
    assert s[..k] == d && s[k..] == rest;
  }

  /** Splitting tokens joined by single spaces gives back the tokens. */
  lemma {:induction false} WordsOfJoin(ws: seq<string>)
    requires forall w :: w in ws ==> w != [] && NoSpace(w)
    ensures Words(Join(ws, " ")) == ws
  {
    if |ws| == 1 {
      assert ws[0] in ws;
      WordsOfOne(ws[0]);
    } else if |ws| > 1 {
      assert ws[0] in ws;
      assert forall w :: w in ws[1..] ==> w in ws;
      var rest := Join(ws[1..], " ");
      assert Join(ws, " ") == ws[0] + (" " + rest);
      WordsOfJoin(ws[1..]);
      WordsOfTokenThen(ws[0], " " + rest);
      WordsOfLeadingSpace(rest);
      assert ws == [ws[0]] + ws[1..];
    }
  }

  /** Leading whitespace, line breaks and tabs included, does not change the tokens. */
  lemma {:induction false} WordsOfBlanksThen(b: string, s: string)
    requires forall i :: 0 <= i < |b| ==> IsSpace(b[i])
    ensures Words(b + s) == Words(s)
    decreases |b|
  {
    if b != [] {
      assert (b + s)[0] == b[0];
      assert (b + s)[1..] == b[1..] + s;
      assert Words(b + s) == Words(b[1..] + s);
      assert forall i :: 0 <= i < |b[1..]| ==> b[1..][i] == b[i + 1];
      WordsOfBlanksThen(b[1..], s);
    } else {
      assert b + s == s;
    }
  }

  /** The first two tokens of `b + d + c + t + rest`, for blanks b and c and a rest that starts a new token or is empty. */
  lemma WordsOfTwoTokens(b: string, d: string, c: string, t: string, rest: string)
    requires forall i :: 0 <= i < |b| ==> IsSpace(b[i])
    requires c != [] && forall i :: 0 <= i < |c| ==> IsSpace(c[i])
    requires d != [] && NoSpace(d) && t != [] && NoSpace(t)
    requires rest == [] || IsSpace(rest[0])
    ensures Words(b + d + c + t + rest) == [d, t] + Words(rest)
  {
    var tail := c + t + rest;
    WordsOfTokenAfterBlanks(c, t, rest);
    assert IsSpace(tail[0]) by { assert tail[0] == c[0]; }
    WordsOfTokenAfterBlanks(b, d, tail);
    ConcatFive(b, d, c, t, rest);
  }

  lemma ConcatFive(b: string, d: string, c: string, t: string, rest: string)
    ensures b + d + c + t + rest == b + d + (c + t + rest)
  {
  }

  /** A token after blanks, followed by whitespace or nothing, is the first token. */
  lemma WordsOfTokenAfterBlanks(b: string, d: string, tail: string)
    requires forall i :: 0 <= i < |b| ==> IsSpace(b[i])
    requires d != [] && NoSpace(d)
    requires tail == [] || IsSpace(tail[0])
    ensures Words(b + d + tail) == [d] + Words(tail)
  {
    assert b + d + tail == b + (d + tail);
    WordsOfBlanksThen(b, d + tail);
    WordsOfTokenThen(d, tail);
  }


  lemma WordsOfLeadingSpace(s: string)
    ensures Words(" " + s) == Words(s)
  {
    assert (" " + s)[1..] == s;
  }

  /**
   * ' '.join(s.split()) keeps the tokens of s, in order: only the whitespace
   * between them changes, so collapsing twice is collapsing once.
   */
  lemma CollapseKeepsWords(s: string)
    ensures Words(CollapseWhitespace(s)) == Words(s)
    ensures CollapseWhitespace(CollapseWhitespace(s)) == CollapseWhitespace(s)
  {
    WordsOfJoin(Words(s));
  }

  /** split() finds no token exactly when the string is made only of whitespace. */
  lemma {:induction false} WordsOfBlank(s: string)
    ensures Words(s) == [] <==> forall i :: 0 <= i < |s| ==> IsSpace(s[i])
  {
    if s != [] {
      WordsOfBlank(s[1..]);
      if IsSpace(s[0]) {
        assert forall i :: 1 <= i < |s| ==> s[i] == s[1..][i - 1];
      }
    }
  }
}
