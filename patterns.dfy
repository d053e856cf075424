/**
  * Hand-written matchers for the regular-expression pieces the scripts share:
  * greedy character-class runs, the pull-request URL pattern and the dotted
  * version number after a tag's leading `v`.
  */
module Patterns {
  import opened Options
  import opened Text

  /** The character classes of the scripts' patterns. `\d` and `\w`, which are
      Unicode-aware in Python, are taken as their ASCII subsets. */
  datatype CharClass =
    | Digit          // \d
    | Word           // \w
    | WordOrHyphen   // [\w-]
    | AlnumOrHyphen  // [a-zA-Z0-9-]

  predicate IsAsciiDigit(c: char) {
    '0' <= c <= '9'
  }

  predicate IsAsciiLetter(c: char) {
    'a' <= c <= 'z' || 'A' <= c <= 'Z'
  }

  predicate InClass(c: char, k: CharClass) {
    match k
    case Digit => IsAsciiDigit(c)
    case Word => IsAsciiLetter(c) || IsAsciiDigit(c) || c == '_'
    case WordOrHyphen => IsAsciiLetter(c) || IsAsciiDigit(c) || c == '_' || c == '-'
    case AlnumOrHyphen => IsAsciiLetter(c) || IsAsciiDigit(c) || c == '-'
  }

  predicate AllIn(s: string, k: CharClass) {
    forall i :: 0 <= i < |s| ==> InClass(s[i], k)
  }

  /** A non-empty run of the class: what `[...]+` matches. */
  predicate IsRun(s: string, k: CharClass) {
    s != [] && AllIn(s, k)
  }

  /** The length of the longest prefix of `s` inside class `k`: a greedy
      `[...]*` (or `+`, when it is not zero). */
  function Span(s: string, k: CharClass): (n: nat)
    ensures n <= |s|
    ensures AllIn(s[..n], k)
    ensures n < |s| ==> !InClass(s[n], k)
  {
    if s != [] && InClass(s[0], k) then 1 + Span(s[1..], k) else 0
  }

  /** A greedy run stops exactly where the class ends. */
  lemma {:induction false} SpanStops(a: string, b: string, k: CharClass)
    requires AllIn(a, k)
    requires b == [] || !InClass(b[0], k)
    ensures Span(a + b, k) == |a|
    decreases |a|
  {
    if a == [] {
      assert a + b == b;
    } else {
      assert (a + b)[1..] == a[1..] + b;
      SpanStops(a[1..], b, k);
    }
  }

  // ---------------------------------------------------------------------------
  // Pull-request URLs: https://github.com/[\w-]+/[\w-]+/pull/(\d+)

  /** One match of the pull-request pattern: its owner and repository path
      segments, the number and the length of the matched text. */
  datatype PrUrl = PrUrl(owner: string, repo: string, number: string, len: nat)

  /** The unescaped `.` of `github.com` matches any character but a newline, so
      the matched text is this, with `dot` standing for that character. */
  function UrlText(dot: char, owner: string, repo: string, number: string): string {
    "https://github" + ([dot] + UrlPath(owner, repo, number))
  }

  /** The text after the wildcard: `com/` + owner + `/` + repo + `/pull/` + number. */
  function UrlPath(owner: string, repo: string, number: string): string {
    "com/" + (owner + ("/" + (repo + ("/pull/" + number))))
  }

  predicate IsUrlParts(dot: char, owner: string, repo: string, number: string) {
    dot != '\n' && IsRun(owner, WordOrHyphen) && IsRun(repo, WordOrHyphen) && IsRun(number, Digit)
  }

  lemma UrlTextLength(dot: char, owner: string, repo: string, number: string)
    ensures |UrlText(dot, owner, repo, number)| == 26 + |owner| + |repo| + |number|
  {
  }

  /** `u` describes a match at the front of `s`, with `dot` for the wildcard. */
  predicate UrlMatched(s: string, dot: char, u: PrUrl) {
    IsUrlParts(dot, u.owner, u.repo, u.number)
    && u.len == |UrlText(dot, u.owner, u.repo, u.number)| <= |s|
    && s[..u.len] == UrlText(dot, u.owner, u.repo, u.number)
    && (u.len < |s| ==> !IsAsciiDigit(s[u.len]))
  }

  lemma Assoc(a: string, b: string, c: string)
    ensures a + (b + c) == (a + b) + c
  {
  }

  lemma PrefixSplits(s: string, p: string)
    requires StartsWith(s, p)
    ensures s == p + s[|p|..]
  {
    assert s == s[..|p|] + s[|p|..];
  }

  /** The pattern matched at the front of `s` (the regex tried at one position). */
  function PrUrlAt(s: string): (m: Option<PrUrl>)
    ensures m.Some? ==> |s| > 14 && UrlMatched(s, s[14], m.value)
  {
    if !(StartsWith(s, "https://github") && |s| > 14 && s[14] != '\n') then None
    else
      match PathAt(s[15..])
      case None => None
      case Some(p) =>
        UrlJoin(s, p.len, UrlPath(p.owner, p.repo, p.number));
        Some(p.(len := 15 + p.len))
  }

  /** Some position of `s` starts a pull-request URL. */
  predicate HasPrUrl(s: string) {
    exists i :: 0 <= i < |s| && PrUrlAt(s[i..]).Some?
  }

  /** A URL starts with `h`. */
  lemma NoUrlAt(s: string)
    requires s != [] && s[0] != 'h'
    ensures PrUrlAt(s).None?
  {
    if |s| >= 14 {
      assert s[..14][0] == s[0];
    }
  }

  /** A matched URL has the `:` of its scheme at index 5 and a `/` right after
      its non-empty owner segment, at index 19 + the owner's length. */
  lemma UrlShape(s: string)
    ensures PrUrlAt(s).Some? ==>
      |s| > 5 && s[5] == ':' && PrUrlAt(s).value.owner != []
      && 19 + |PrUrlAt(s).value.owner| < |s| && s[19 + |PrUrlAt(s).value.owner|] == '/'
  {
    var m := PrUrlAt(s);
    if m.Some? {
      var u := m.value;
      var head := "https://github" + ([s[14]] + "com/");
      var tail := "/" + (u.repo + ("/pull/" + u.number));
      var url := UrlText(s[14], u.owner, u.repo, u.number);
      assert url == head + (u.owner + tail) by {
        Assoc([s[14]], "com/", u.owner + tail);
        Assoc("https://github", [s[14]] + "com/", u.owner + tail);
      }
      assert |head| == 19;
      assert url[5] == ':';
      assert url[19 + |u.owner|] == '/';
      assert s[..u.len] == url;
    }
  }

  /** No URL starts where index 5 is not a `:`. */
  lemma NoUrlColon(s: string)
    requires |s| <= 5 || s[5] != ':'
    ensures PrUrlAt(s).None?
  {
    UrlShape(s);
  }

  /** No URL starts where no `/` follows index 19. */
  lemma NoUrlSlash(s: string)
    requires forall k :: 20 <= k < |s| ==> s[k] != '/'
    ensures PrUrlAt(s).None?
  {
    UrlShape(s);
  }

  /** The scheme and host, the wildcard and the path, read off in turn. */
  lemma UrlJoin(s: string, n: nat, path: string)
    requires StartsWith(s, "https://github") && |s| > 14
    requires n <= |s| - 15 && s[15..][..n] == path
    ensures s[..15 + n] == "https://github" + ([s[14]] + path)
    ensures 15 + n < |s| ==> s[15 + n] == s[15..][n]
  {
    assert s[..15 + n] == s[..14] + s[14..15 + n];
    assert s[14..15 + n] == [s[14]] + s[15..][..n];
  }

  /** The path part of the pattern at the front of `t`; `len` is the path's length. */
  function PathAt(t: string): (m: Option<PrUrl>)
    ensures m.Some? ==>
      IsRun(m.value.owner, WordOrHyphen) && IsRun(m.value.repo, WordOrHyphen) && IsRun(m.value.number, Digit)
      && m.value.len == |UrlPath(m.value.owner, m.value.repo, m.value.number)| <= |t|
      && t[..m.value.len] == UrlPath(m.value.owner, m.value.repo, m.value.number)
      && (m.value.len < |t| ==> !IsAsciiDigit(t[m.value.len]))
  {
    if !StartsWith(t, "com/") then None
    else
      var t1 := t[4..];
      var o := Span(t1, WordOrHyphen);
      var t2 := t1[o..];
      if o == 0 || !StartsWith(t2, "/") then None
      else
        var t3 := t2[1..];
        var r := Span(t3, WordOrHyphen);
        var t4 := t3[r..];
        if r == 0 || !StartsWith(t4, "/pull/") then None
        else
          var t5 := t4[6..];
          var d := Span(t5, Digit);
          if d == 0 then None
          else
            var owner, repo, number := t1[..o], t3[..r], t5[..d];
            PrefixSplits(t, "com/");
            PrefixSplits(t1, owner);
            PrefixSplits(t2, "/");
            PrefixSplits(t3, repo);
            PrefixSplits(t4, "/pull/");
            PrefixSplits(t5, number);
            var t6 := t5[d..];
            Assoc("/pull/", number, t6);
            Assoc(repo, "/pull/" + number, t6);
            Assoc("/", repo + ("/pull/" + number), t6);
            Assoc(owner, "/" + (repo + ("/pull/" + number)), t6);
            Assoc("com/", owner + ("/" + (repo + ("/pull/" + number))), t6);
            assert t == UrlPath(owner, repo, number) + t6;
            Some(PrUrl(owner, repo, number, |UrlPath(owner, repo, number)|))
  }

  /** Conversely, every text of the URL shape, followed by something that does
      not extend the number, is matched at the front, with its parts. */
  lemma PrUrlAtFront(dot: char, owner: string, repo: string, number: string, rest: string)
    requires IsUrlParts(dot, owner, repo, number)
    requires rest == [] || !IsAsciiDigit(rest[0])
    ensures PrUrlAt(UrlText(dot, owner, repo, number) + rest)
      == Some(PrUrl(owner, repo, number, |UrlText(dot, owner, repo, number)|))
  {
    var path := UrlPath(owner, repo, number);
    var u := UrlText(dot, owner, repo, number);
    var s := u + rest;
    Assoc("https://github", [dot] + path, rest);
    Assoc([dot], path, rest);
    assert s[..14] == "https://github";
    assert s[15..] == path + rest;
    PathAtFront(owner, repo, number, rest);
  }

  lemma PathAtFront(owner: string, repo: string, number: string, rest: string)
    requires IsRun(owner, WordOrHyphen) && IsRun(repo, WordOrHyphen) && IsRun(number, Digit)
    requires rest == [] || !IsAsciiDigit(rest[0])
    ensures PathAt(UrlPath(owner, repo, number) + rest)
      == Some(PrUrl(owner, repo, number, |UrlPath(owner, repo, number)|))
  {
    Assoc("/pull/", number, rest);
    Assoc(repo, "/pull/" + number, rest);
    Assoc("/", repo + ("/pull/" + number), rest);
    Assoc(owner, "/" + (repo + ("/pull/" + number)), rest);
    Assoc("com/", owner + ("/" + (repo + ("/pull/" + number))), rest);
    PathAtSteps(owner, repo, number, rest);
  }

  /** `PathAtFront` on the right-nested form of the text. */
  lemma PathAtSteps(owner: string, repo: string, number: string, rest: string)
    requires IsRun(owner, WordOrHyphen) && IsRun(repo, WordOrHyphen) && IsRun(number, Digit)
    requires rest == [] || !IsAsciiDigit(rest[0])
    ensures PathAt("com/" + (owner + ("/" + (repo + ("/pull/" + (number + rest))))))
      == Some(PrUrl(owner, repo, number, |UrlPath(owner, repo, number)|))
  {
    var t5 := number + rest;
    var t4 := "/pull/" + t5;
    var t3 := repo + t4;
    var t2 := "/" + t3;
    var t1 := owner + t2;
    var t := "com/" + t1;
    assert t[..4] == "com/" && t[4..] == t1;
    SpanStops(owner, t2, WordOrHyphen);
    assert t1[|owner|..] == t2 && t1[..|owner|] == owner;
    assert t2[..1] == "/" && t2[1..] == t3;
    SpanStops(repo, t4, WordOrHyphen);
    assert t3[|repo|..] == t4 && t3[..|repo|] == repo;
    assert t4[..6] == "/pull/" && t4[6..] == t5;
    SpanStops(number, rest, Digit);
    assert t5[..|number|] == number;
    var m := PathAt(t);
    PathAtUnfold(t, |owner|, |repo|, |number|, m);
  }

  /** `PathAt` on a text whose three runs are known. */
  lemma PathAtUnfold(t: string, o: nat, r: nat, d: nat, m: Option<PrUrl>)
    requires StartsWith(t, "com/") && Span(t[4..], WordOrHyphen) == o > 0
    requires StartsWith(t[4..][o..], "/") && Span(t[4..][o..][1..], WordOrHyphen) == r > 0
    requires StartsWith(t[4..][o..][1..][r..], "/pull/") && Span(t[4..][o..][1..][r..][6..], Digit) == d > 0
    requires m == PathAt(t)
    ensures m.Some? && m.value.owner == t[4..][..o] && m.value.repo == t[4..][o..][1..][..r]
    ensures m.Some? && m.value.number == t[4..][o..][1..][r..][6..][..d] && m.value.len == |UrlPath(m.value.owner, m.value.repo, m.value.number)|
  {
  }

  /** The index of the first `c` in `s`, or `|s|` when there is none. */
  function IndexOf(s: string, c: char): (i: nat)
    ensures i <= |s|
    ensures c !in s[..i]
    ensures i < |s| ==> s[i] == c
  {
    if s == [] || s[0] == c then 0 else 1 + IndexOf(s[1..], c)
  }

  /** `s.split(sep)`: the pieces between the separators (at least one). */
  function Split(s: string, sep: char): (parts: seq<string>)
    ensures |parts| >= 1
    decreases |s|
  {
    var i := IndexOf(s, sep);
    if i == |s| then [s] else [s[..i]] + Split(s[i + 1..], sep)
  }

  predicate AllRuns(parts: seq<string>, k: CharClass) {
    forall i :: 0 <= i < |parts| ==> IsRun(parts[i], k)
  }

  /** A scanner for `\d+(\.\d+)*` over the whole of `s`: the number of groups
      when it matches, `None` when it does not. Greedy runs cannot backtrack
      usefully here, since `.` is not a digit. */
  function DottedGroups(s: string): Option<nat>
    decreases |s|
  {
    var d := Span(s, Digit);
    if d == 0 then None
    else if d == |s| then Some(1)
    else if s[d] == '.' then
      match DottedGroups(s[d + 1..])
      case Some(n) => Some(n + 1)
      case None => None
    else None
  }

  /** One run of digits is one group. */
  lemma DottedGroupsRun(a: string)
    requires IsRun(a, Digit)
    ensures DottedGroups(a) == Some(1)
  {
    SpanStops(a, [], Digit);
    assert a + [] == a;
  }

  /** A run of digits and a dot in front of a text add one group to it. */
  lemma DottedGroupsDot(a: string, rest: string)
    requires IsRun(a, Digit)
    ensures DottedGroups(a + ("." + rest))
      == match DottedGroups(rest) case Some(n) => Some(n + 1) case None => None
  {
    var s := a + ("." + rest);
    SpanStops(a, "." + rest, Digit);
    assert s[|a|] == '.';
    assert s[|a| + 1..] == rest;
    DottedGroupsAfterDot(s, |a|);
  }

  /** A run of digits followed by anything but a digit or a dot is not matched. */
  lemma DottedGroupsStop(a: string, c: char, rest: string)
    requires IsRun(a, Digit) && c != '.' && !IsAsciiDigit(c)
    ensures DottedGroups(a + ([c] + rest)) == None
  {
    var s := a + ([c] + rest);
    SpanStops(a, [c] + rest, Digit);
    assert s[|a|] == c;
  }

  /** The scanner agrees with the reference definition: the text is digit groups
      joined by dots exactly when every piece of `split('.')` is a non-empty run
      of digits, and then it counts the pieces. */
  lemma {:induction false} DottedGroupsSplit(s: string)
    ensures DottedGroups(s) == if AllRuns(Split(s, '.'), Digit) then Some(|Split(s, '.')|) else None
    decreases |s|
  {
    var d := Span(s, Digit);
    if d == 0 {
      FirstPieceNotRun(s, d);
    } else if d == |s| {
      WholeRunSplit(s);
    } else if s[d] == '.' {
      var t := s[d + 1..];
      DottedGroupsSplit(t);
      DotSplit(s, d);
      DottedGroupsAfterDot(s, d);
      DotCase(DottedGroups(s), DottedGroups(t), Split(s, '.'), Split(t, '.'), s[..d]);
    } else {
      FirstPieceNotRun(s, d);
    }
  }

  /** The scanner's step over a digit run and a dot. */
  lemma DottedGroupsAfterDot(s: string, d: nat)
    requires 0 < d == Span(s, Digit) < |s| && s[d] == '.'
    ensures DottedGroups(s) == match DottedGroups(s[d + 1..]) case Some(n) => Some(n + 1) case None => None
  {
  }

  /** The inductive step of `DottedGroupsSplit`, over plain values. */
  lemma DotCase(g: Option<nat>, gt: Option<nat>, ps: seq<string>, pt: seq<string>, p: string)
    requires g == match gt case Some(n) => Some(n + 1) case None => None
    requires gt == if AllRuns(pt, Digit) then Some(|pt|) else None
    requires ps == [p] + pt && IsRun(p, Digit)
    ensures g == if AllRuns(ps, Digit) then Some(|ps|) else None
  {
    AllRunsCons(p, pt, Digit);
  }

  lemma SplitFirst(s: string, sep: char)
    ensures Split(s, sep)[0] == s[..IndexOf(s, sep)]
  {
    if IndexOf(s, sep) == |s| {
      assert s[..|s|] == s;
    }
  }

  /** When the leading digits do not reach a `.` or the end, the first piece is
      not a run of digits. */
  lemma FirstPieceNotRun(s: string, d: nat)
    requires d == Span(s, Digit)
    requires d == 0 || (d < |s| && s[d] != '.')
    ensures !IsRun(Split(s, '.')[0], Digit)
  {
    var i := IndexOf(s, '.');
    SplitFirst(s, '.');
    DigitsNoDot(s, d);
    var p := s[..i];
    if d == 0 {
      if i > 0 {
        assert p[0] == s[0];
        assert !InClass(p[0], Digit);
      }
    } else {
      assert i != d;
      assert p[d] == s[d];
      assert !InClass(p[d], Digit);
    }
  }

  lemma WholeRunSplit(s: string)
    requires s != [] && Span(s, Digit) == |s|
    ensures Split(s, '.') == [s] && IsRun(s, Digit)
  {
    assert s[..|s|] == s;
    DigitsNoDot(s, |s|);
  }

  /** No `.` among the leading digits: the first `.` comes at or after them. */
  lemma DigitsNoDot(s: string, d: nat)
    requires d == Span(s, Digit)
    ensures IndexOf(s, '.') >= d
  {
    forall j | 0 <= j < d ensures s[j] != '.' {
      assert s[..d][j] == s[j];
    }
  }

  lemma DotSplit(s: string, d: nat)
    requires 0 < d == Span(s, Digit) < |s| && s[d] == '.'
    ensures Split(s, '.') == [s[..d]] + Split(s[d + 1..], '.')
    ensures IsRun(s[..d], Digit)
  {
    DigitsNoDot(s, d);
    SplitAt(s, '.', d);
  }

  lemma SplitAt(s: string, sep: char, i: nat)
    requires i == IndexOf(s, sep) < |s|
    ensures Split(s, sep) == [s[..i]] + Split(s[i + 1..], sep)
  {
  }

  lemma AllRunsCons(p: string, ps: seq<string>, k: CharClass)
    ensures AllRuns([p] + ps, k) <==> IsRun(p, k) && AllRuns(ps, k)
  {
    var qs := [p] + ps;
    if IsRun(p, k) && AllRuns(ps, k) {
      forall j | 0 <= j < |qs| ensures IsRun(qs[j], k) {
        if j > 0 {
          assert qs[j] == ps[j - 1];
        }
      }
    }
    if AllRuns(qs, k) {
      assert qs[0] == p;
      forall j | 0 <= j < |ps| ensures IsRun(ps[j], k) {
        assert qs[j + 1] == ps[j];
      }
    }
  }
}
