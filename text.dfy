/**
  * The Python `str` primitives the changelog scripts rely on, over `seq<char>`:
  * `isspace`, `strip`, `splitlines`, `startswith`, the `in` substring check and
  * `replace`. Character sets are the exact ones Python 3 uses.
  */
module Text {

  /** `c.isspace()` in Python 3: the 29 code points it treats as whitespace
      (also what `\s` matches in a `str` regular expression). */
  predicate IsSpace(c: char) {
    ('\t' <= c <= '\r') || ('\U{1C}' <= c <= ' ') || c == '\U{85}' || c == '\U{A0}'
    || c == '\U{1680}' || ('\U{2000}' <= c <= '\U{200A}') || c == '\U{2028}'
    || c == '\U{2029}' || c == '\U{202F}' || c == '\U{205F}' || c == '\U{3000}'
  }

  /** The characters at which `str.splitlines()` ends a line. */
  predicate IsLineBreak(c: char) {
    ('\n' <= c <= '\r') || ('\U{1C}' <= c <= '\U{1E}') || c == '\U{85}'
    || c == '\U{2028}' || c == '\U{2029}'
  }

  predicate AllSpace(s: string) {
    forall i :: 0 <= i < |s| ==> IsSpace(s[i])
  }

  predicate NoLineBreak(s: string) {
    forall i :: 0 <= i < |s| ==> !IsLineBreak(s[i])
  }

  /** `s.lstrip()`: drops the leading whitespace and nothing else. */
  function TrimLeft(s: string): (r: string)
    ensures |r| <= |s| && r == s[|s| - |r|..]
    ensures AllSpace(s[..|s| - |r|])
    ensures r == [] || !IsSpace(r[0])
  {
    if |s| > 0 && IsSpace(s[0]) then
      var r := TrimLeft(s[1..]);
      assert s[..|s| - |r|] == [s[0]] + s[1..][..|s| - 1 - |r|];
      r
    else s
  }

  /** `s.rstrip()`: drops the trailing whitespace and nothing else. */
  function TrimRight(s: string): (r: string)
    ensures |r| <= |s| && r == s[..|r|]
    ensures AllSpace(s[|r|..])
    ensures r == [] || !IsSpace(r[|r| - 1])
  {
    if |s| > 0 && IsSpace(s[|s| - 1]) then
      var r := TrimRight(s[..|s| - 1]);
      assert s[|r|..] == s[..|s| - 1][|r|..] + [s[|s| - 1]];
      r
    else s
  }

  /** `s.strip()` with no argument: the input with its leading and trailing
      whitespace removed and nothing else. */
  function Strip(s: string): (r: string)
    ensures |r| <= |s|
    ensures r == [] || (!IsSpace(r[0]) && !IsSpace(r[|r| - 1]))
    ensures exists i :: 0 <= i <= |s| - |r| && r == s[i..i + |r|] && AllSpace(s[..i]) && AllSpace(s[i + |r|..])
  {
    StripWitness(s, TrimLeft(s), TrimRight(TrimLeft(s)));
    TrimRight(TrimLeft(s))
  }

  /** The leading blanks end where the left trim starts, the kept text runs
      to where the right trim starts, and only blanks follow it. */
  lemma StripWitness(s: string, t: string, r: string)
    requires |t| <= |s| && t == s[|s| - |t|..] && AllSpace(s[..|s| - |t|])
    requires |r| <= |t| && r == t[..|r|] && AllSpace(t[|r|..])
    ensures exists i :: 0 <= i <= |s| - |r| && r == s[i..i + |r|] && AllSpace(s[..i]) && AllSpace(s[i + |r|..])
  {
    var i := |s| - |t|;
    assert s[i..i + |r|] == r;
    assert s[i + |r|..] == t[|r|..];
  }

  /** A blank line: only whitespace. The line clean-up helpers check this as
      `s.strip() == ''`, which `BlankIffStripped` shows to be the same. */
  predicate IsBlank(s: string) {
    AllSpace(s)
  }

  /** `s.startswith(p)`. */
  predicate StartsWith(s: string, p: string) {
    |p| <= |s| && s[..|p|] == p
  }

  /** `sub in s`. */
  predicate Contains(s: string, sub: string)
    decreases |s|
  {
    StartsWith(s, sub) || (|s| > 0 && Contains(s[1..], sub))
  }

  /** `s.replace(pat, repl)`: every non-overlapping occurrence of `pat`, scanned
      from the left, becomes `repl`; the inserted text is not scanned again.
      An empty `pat` inserts `repl` before every character and at the end. */
  function Replace(s: string, pat: string, repl: string): string
    decreases |s|
  {
    if |pat| == 0 then
      repl + (if s == [] then [] else [s[0]] + Replace(s[1..], pat, repl))
    else if StartsWith(s, pat) then
      repl + Replace(s[|pat|..], pat, repl)
    else if s == [] then
      []
    else
      [s[0]] + Replace(s[1..], pat, repl)
  }

  /** The length of the first line of `s`, up to (not including) its line break. */
  function LineLength(s: string): (n: nat)
    ensures n <= |s|
    ensures NoLineBreak(s[..n])
    ensures n < |s| ==> IsLineBreak(s[n])
  {
    if s == [] || IsLineBreak(s[0]) then 0 else 1 + LineLength(s[1..])
  }

  /** The width of the line break at `s[n]`: `\r\n` counts as one break of two characters. */
  function BreakWidth(s: string, n: nat): nat
    requires n < |s|
  {
    if s[n] == '\r' && n + 1 < |s| && s[n + 1] == '\n' then 2 else 1
  }

  /** `s.splitlines()`: the lines without their breaks; a final break does not
      start another, empty, line. */
  function SplitLines(s: string): (lines: seq<string>)
    ensures forall i :: 0 <= i < |lines| ==> NoLineBreak(lines[i])
    ensures lines == [] <==> s == []
    decreases |s|
  {
    if s == [] then []
    else
      var n := LineLength(s);
      if n == |s| then [s] else [s[..n]] + SplitLines(s[n + BreakWidth(s, n)..])
  }

  // ---------------------------------------------------------------------------
  // Properties of the primitives

  /** A string that is `p + r + q` with `p` and `q` all whitespace and `r`
      neither starting nor ending with whitespace strips to `r`. */
  lemma {:induction false} StripUnique(p: string, r: string, q: string)
    requires AllSpace(p) && AllSpace(q)
    requires r == [] || (!IsSpace(r[0]) && !IsSpace(r[|r| - 1]))
    ensures Strip(p + r + q) == r
  {
    assert p + r + q == p + (r + q);
    TrimLeftSpaces(p, r + q);
    if r == [] {
      assert r + q == q;
    } else {
      assert (r + q)[0] == r[0];
      TrimRightSpaces(r, q);
    }
  }

  lemma {:induction false} TrimLeftSpaces(p: string, t: string)
    requires AllSpace(p)
    ensures TrimLeft(p + t) == TrimLeft(t)
    decreases |p|
  {
    if p != [] {
      assert (p + t)[0] == p[0];
      assert (p + t)[1..] == p[1..] + t;
      TrimLeftSpaces(p[1..], t);
    } else {
      assert p + t == t;
    }
  }

  lemma {:induction false} TrimRightSpaces(r: string, q: string)
    requires AllSpace(q)
    requires r == [] || !IsSpace(r[|r| - 1])
    ensures TrimRight(r + q) == r
    decreases |q|
  {
    if q == [] {
      assert r + q == r;
    } else {
      assert (r + q)[..|r + q| - 1] == r + q[..|q| - 1];
      TrimRightSpaces(r, q[..|q| - 1]);
    }
  }

  /** Stripping twice is stripping once. */
  lemma StripIdempotent(s: string)
    ensures Strip(Strip(s)) == Strip(s)
  {
    StripUnique([], Strip(s), []);
    assert [] + Strip(s) + [] == Strip(s);
  }

  /** A line is blank exactly when stripping leaves nothing of it. */
  lemma BlankIffStripped(s: string)
    ensures IsBlank(s) <==> Strip(s) == []
  {
    if AllSpace(s) {
      StripUnique(s, [], []);
      assert s + [] + [] == s;
    }
    if Strip(s) == [] {
      assert TrimLeft(s) == [];
    }
  }

  /** `sub` occurs in `s` at index `i`. */
  predicate OccursAt(s: string, sub: string, i: int) {
    0 <= i <= |s| - |sub| && s[i..i + |sub|] == sub
  }

  /** `sub in s` holds exactly when `sub` occurs at some index of `s`. */
  lemma {:induction false} ContainsAt(s: string, sub: string)
    ensures Contains(s, sub) <==> exists i :: OccursAt(s, sub, i)
    decreases |s|
  {
    if StartsWith(s, sub) {
      assert OccursAt(s, sub, 0);
    } else if |s| > 0 {
      ContainsAt(s[1..], sub);
      if Contains(s[1..], sub) {
        var i :| OccursAt(s[1..], sub, i);
        assert s[1..][i..i + |sub|] == s[i + 1..i + 1 + |sub|];
        assert OccursAt(s, sub, i + 1);
      }
      if i :| OccursAt(s, sub, i) {
        assert i != 0;
        assert s[1..][i - 1..i - 1 + |sub|] == s[i..i + |sub|];
        assert OccursAt(s[1..], sub, i - 1);
      }
    }
  }

  /** Replacing a string that does not occur changes nothing. */
  lemma {:induction false} ReplaceAbsent(s: string, pat: string, repl: string)
    requires |pat| > 0 && !Contains(s, pat)
    ensures Replace(s, pat, repl) == s
    decreases |s|
  {
    if s != [] {
      assert !StartsWith(s, pat) && !Contains(s[1..], pat);
      ReplaceAbsent(s[1..], pat, repl);
      assert s == [s[0]] + s[1..];
    }
  }

  /** A prefix that cannot start an occurrence of `pat` is copied unchanged. */
  lemma {:induction false} ReplaceSkip(a: string, b: string, pat: string, repl: string)
    requires |pat| > 0 && pat[0] !in a
    ensures Replace(a + b, pat, repl) == a + Replace(b, pat, repl)
    decreases |a|
  {
    if a != [] {
      assert (a + b)[1..] == a[1..] + b;
      ReplaceSkip(a[1..], b, pat, repl);
      assert a == [a[0]] + a[1..];
    } else {
      assert a + b == b;
    }
  }

  /** An occurrence at the front is replaced and the scan resumes after it. */
  lemma ReplaceFront(pat: string, b: string, repl: string)
    requires |pat| > 0
    ensures Replace(pat + b, pat, repl) == repl + Replace(b, pat, repl)
  {
    assert StartsWith(pat + b, pat);
    assert (pat + b)[|pat|..] == b;
  }

  /** Where no occurrence starts, the first character is copied. */
  lemma ReplaceNotAt(s: string, pat: string, repl: string)
    requires |pat| > 0 && s != [] && !StartsWith(s, pat)
    ensures Replace(s, pat, repl) == [s[0]] + Replace(s[1..], pat, repl)
  {
  }

  /** A text without the first character of `pat` does not contain it. */
  lemma {:induction false} NotContainsFirst(s: string, pat: string)
    requires |pat| > 0 && pat[0] !in s
    ensures !Contains(s, pat)
    decreases |s|
  {
    if s != [] {
      assert s[0] in s;
      assert pat[0] !in s[1..] by {
        forall j | 0 <= j < |s| - 1 ensures s[1..][j] != pat[0] {
          assert s[1..][j] == s[j + 1];
        }
      }
      NotContainsFirst(s[1..], pat);
    }
  }

  /** A replacement longer than the pattern never shortens the text, and
      lengthens it exactly when the pattern occurs. */
  lemma {:induction false} ReplaceGrows(s: string, pat: string, repl: string)
    requires 0 < |pat| < |repl|
    ensures |Replace(s, pat, repl)| >= |s|
    ensures Contains(s, pat) <==> |Replace(s, pat, repl)| > |s|
    decreases |s|
  {
    if StartsWith(s, pat) {
      ReplaceGrows(s[|pat|..], pat, repl);
    } else if s != [] {
      ReplaceGrows(s[1..], pat, repl);
    }
  }

  /** The line break `\r\n` or `\n`. */
  function Newline(crlf: bool): string {
    if crlf then "\r\n" else "\n"
  }

  /** A line without a break, followed by `\n` or `\r\n`, is one line of `splitlines`. */
  lemma {:induction false} SplitLinesFront(x: string, crlf: bool, rest: string)
    requires NoLineBreak(x)
    ensures SplitLines(x + Newline(crlf) + rest) == [x] + SplitLines(rest)
  {
    var nl := Newline(crlf);
    var s := x + nl + rest;
    LineLengthStops(x, nl + rest);
    assert s == x + (nl + rest);
    assert LineLength(s) == |x|;
    assert s[..|x|] == x;
    assert BreakWidth(s, |x|) == |nl|;
    assert s[|x| + |nl|..] == rest;
  }

  lemma {:induction false} LineLengthStops(x: string, t: string)
    requires NoLineBreak(x)
    requires t != [] && IsLineBreak(t[0])
    ensures LineLength(x + t) == |x|
    decreases |x|
  {
    var s := x + t;
    if x != [] {
      assert s[0] == x[0];
      assert s[1..] == x[1..] + t;
      assert NoLineBreak(x[1..]) by {
        forall i | 0 <= i < |x| - 1 ensures !IsLineBreak(x[1..][i]) {
          assert x[1..][i] == x[i + 1];
        }
      }
      LineLengthStops(x[1..], t);
    } else {
      assert s == t;
    }
  }

  /** A last line without a break is a line of its own. */
  lemma SplitLinesLast(x: string)
    requires x != [] && NoLineBreak(x)
    ensures SplitLines(x) == [x]
  {
    LineLengthAll(x);
  }

  lemma {:induction false} LineLengthAll(x: string)
    requires NoLineBreak(x)
    ensures LineLength(x) == |x|
    decreases |x|
  {
    if x != [] {
      LineLengthAll(x[1..]);
    }
  }
}
