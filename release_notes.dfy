/**
  * `parse_release_notes`, shared character for character by both release
  * scripts: a scanner for the heading-and-bullets pattern that `re.findall`
  * applies, the clean-up of each bullet line, and the dictionary of categories
  * built from the matches. The link converter each script applies to an entry
  * is a parameter. The scanner is written for any list of headings whose
  * alternatives cannot be confused (`WellFormed`); the six configured ones are
  * such a list.
  */
module ReleaseNotes {
  import opened Options
  import opened Text
  import Patterns

  const Highlights: string := "\U{1F31F} Highlights"
  const Features: string := "\U{1F680} Features"
  const BugFixes: string := "\U{1F41B} Bug Fixes"
  const Documentation: string := "\U{1F4DD} Documentation"
  /** The arrow is followed by the variation selector U+FE0F. */
  const Dependencies: string := "\U{2B06}\U{FE0F} Dependencies"
  const Maintenance: string := "\U{1F528} Maintenance"

  /** The recognised categories, in the order of the resulting dictionary. */
  const Labels: seq<string> := [Highlights, Features, BugFixes, Documentation, Dependencies, Maintenance]

  /** One element of the `findall` result: the category of the heading, the block
      of bullet lines after it, and the length of the whole matched text. */
  datatype Match = Match(category: string, content: string, len: nat)

  /** One key of the resulting dictionary with its list of entries. */
  datatype Section = Section(category: string, entries: seq<string>)

  function Heading(category: string): string {
    "### " + category
  }

  /** Headings no two of which start with the same character, none holding a `#`. */
  predicate WellFormed(labels: seq<string>) {
    (forall i :: 0 <= i < |labels| ==> labels[i] != [] && '#' !in labels[i])
    && (forall i, j :: 0 <= i < j < |labels| ==> labels[i][0] != labels[j][0])
  }

  lemma LabelsWellFormed()
    ensures WellFormed(Labels)
  {
    assert '#' !in Highlights;
    assert '#' !in Features;
    assert '#' !in BugFixes;
    assert '#' !in Documentation;
    assert '#' !in Dependencies;
    assert '#' !in Maintenance;
  }

  /** The index of `x` in `ls`, or `|ls|` when it is not there. */
  function Position(ls: seq<string>, x: string): (k: nat)
    ensures k <= |ls|
    ensures k < |ls| ==> ls[k] == x
    ensures forall j :: 0 <= j < k ==> ls[j] != x
  {
    if ls == [] then 0 else if ls[0] == x then 0 else 1 + Position(ls[1..], x)
  }

  lemma PositionOf(ls: seq<string>, k: nat)
    requires WellFormed(ls) && k < |ls|
    ensures Position(ls, ls[k]) == k
  {
  }

  /** Each item of `r` is a category of `labels` holding exactly the entries
      collected for it, and they are not empty. */
  predicate Sound(r: seq<Section>, labels: seq<string>, ms: seq<Match>, toEntries: string -> seq<string>) {
    forall i :: 0 <= i < |r| ==>
      r[i].category in labels && r[i].entries == Collected(ms, r[i].category, toEntries) != []
  }

  /** Every category of `labels` with collected entries is an item of `r`. */
  predicate Complete(r: seq<Section>, labels: seq<string>, ms: seq<Match>, toEntries: string -> seq<string>) {
    forall category :: category in labels && Collected(ms, category, toEntries) != [] ==>
      exists i :: 0 <= i < |r| && r[i].category == category
  }

  /** The items of `r` come in the order of their categories in `labels`. */
  predicate InOrder(r: seq<Section>, labels: seq<string>) {
    forall i, j :: 0 <= i < j < |r| ==> Position(labels, r[i].category) < Position(labels, r[j].category)
  }

  // ---------------------------------------------------------------------------
  // The scanner for  (### (L1|…|L6))\r?\n((?:\*.*(?:\r?\n|$))+)

  /** The first of `labels` whose heading `### <category>` starts `s`, if any. */
  function LabelAt(s: string, labels: seq<string>): (r: Option<string>)
    ensures r.Some? ==> r.value in labels && StartsWith(s, Heading(r.value))
    ensures r.None? ==> forall i :: 0 <= i < |labels| ==> !StartsWith(s, Heading(labels[i]))
  {
    if labels == [] then None
    else if StartsWith(s, Heading(labels[0])) then Some(labels[0])
    else
      var r := LabelAt(s, labels[1..]);
      assert r.None? ==> forall i :: 1 <= i < |labels| ==> labels[i] == labels[1..][i - 1];
      r
  }

  /** At most one heading starts any text, so the one found is the one there is. */
  lemma LabelAtUnique(s: string, labels: seq<string>, category: string)
    requires WellFormed(labels) && category in labels && StartsWith(s, Heading(category))
    ensures LabelAt(s, labels) == Some(category)
  {
    var other := LabelAt(s, labels).value;
    assert s[4] == other[0] by {
      assert Heading(other)[4] == other[0];
    }
    assert s[4] == category[0] by {
      assert Heading(category)[4] == category[0];
    }
  }

  /** The length of the `\r?\n` at the front of `s`, or 0 when there is none. */
  function NewlineAt(s: string): (n: nat)
    ensures n <= |s|
    ensures n == 2 <==> StartsWith(s, "\r\n")
    ensures n == 1 <==> StartsWith(s, "\n")
  {
    if |s| >= 2 && s[0] == '\r' && s[1] == '\n' then
      assert s[..2] == "\r\n";
      2
    else if |s| >= 1 && s[0] == '\n' then
      assert s[..1] == "\n";
      1
    else
      assert !StartsWith(s, "\r\n") by {
        if |s| >= 2 {
          assert s[..2][0] == s[0] && s[..2][1] == s[1];
        }
      }
      assert !StartsWith(s, "\n") by {
        if |s| >= 1 {
          assert s[..1][0] == s[0];
        }
      }
      0
  }

  /** The length of the first line of `s` including its `\n`: what `.*` and the
      `\r?\n` after it consume (the `.` takes a `\r` too), or `|s|` when the line
      ends the text and `$` matches. */
  function LineEnd(s: string): (e: nat)
    requires s != []
    ensures 0 < e <= |s|
    ensures forall j :: 0 <= j < e - 1 ==> s[j] != '\n'
    ensures e < |s| ==> s[e - 1] == '\n'
  {
    var i := Patterns.IndexOf(s, '\n');
    if i < |s| then
      assert forall j :: 0 <= j < i ==> s[..i][j] == s[j];
      i + 1
    else
      assert forall j :: 0 <= j < i ==> s[..i][j] == s[j];
      |s|
  }

  /** The first `n` characters of `s` are a block of bullet lines: they start
      with `*`, and so does every line after a `\n` among them. */
  predicate BlockIn(s: string, n: nat) {
    0 < n <= |s| && s[0] == '*' && forall j :: 0 <= j < n - 1 ==> BulletAfter(s, j)
  }

  /** A `\n` at `s[j]` is followed by a bullet. */
  predicate BulletAfter(s: string, j: nat)
    requires j + 1 < |s|
  {
    s[j] == '\n' ==> s[j + 1] == '*'
  }

  /** The block of the first `n` characters ends there: at the end of the text,
      or after a `\n` followed by a line that is not a bullet. */
  predicate EndsIn(s: string, n: nat) {
    0 < n <= |s| && (n == |s| || (s[n - 1] == '\n' && s[n] != '*'))
  }

  /** A whole block of bullet lines. */
  predicate IsBlock(c: string) {
    BlockIn(c, |c|)
  }

  /** What follows the block `c` ends it. */
  predicate EndsBlock(c: string, rest: string) {
    c != [] && (rest == [] || (c[|c| - 1] == '\n' && rest[0] != '*'))
  }

  lemma BlockSplit(s: string, n: nat)
    requires BlockIn(s, n) && EndsIn(s, n)
    ensures IsBlock(s[..n]) && EndsBlock(s[..n], s[n..])
  {
    var c := s[..n];
    forall j | 0 <= j < n - 1 ensures BulletAfter(c, j) {
      assert BulletAfter(s, j);
      assert c[j] == s[j] && c[j + 1] == s[j + 1];
    }
    assert c[0] == s[0] && c[n - 1] == s[n - 1];
  }

  lemma BlockJoin(c: string, rest: string)
    requires IsBlock(c) && EndsBlock(c, rest)
    ensures BlockIn(c + rest, |c|) && EndsIn(c + rest, |c|)
  {
    var s := c + rest;
    forall j | 0 <= j < |c| - 1 ensures BulletAfter(s, j) {
      assert BulletAfter(c, j);
      assert s[j] == c[j] && s[j + 1] == c[j + 1];
    }
    assert s[0] == c[0] && s[|c| - 1] == c[|c| - 1];
    if rest != [] {
      assert s[|c|] == rest[0];
    }
  }

  /** The length of the run of bullet lines at the front of `s`: the greedy
      `(?:\*.*(?:\r?\n|$))+`, or 0 when `s` does not start with `*`. */
  function BulletRun(s: string): (n: nat)
    ensures n <= |s|
    ensures n == 0 <==> (s == [] || s[0] != '*')
    ensures n > 0 ==> BlockIn(s, n) && EndsIn(s, n)
    decreases |s|
  {
    if s == [] || s[0] != '*' then 0
    else
      var e := LineEnd(s);
      var r := BulletRun(s[e..]);
      BulletRunStep(s, e, r);
      e + r
  }

  /** A bullet line of length `e` followed by a run of length `r` is a run. */
  lemma BulletRunStep(s: string, e: nat, r: nat)
    requires 0 < e <= |s| && s[0] == '*'
    requires forall j :: 0 <= j < e - 1 ==> s[j] != '\n'
    requires e < |s| ==> s[e - 1] == '\n'
    requires r <= |s| - e
    requires r == 0 <==> (s[e..] == [] || s[e..][0] != '*')
    requires r > 0 ==> BlockIn(s[e..], r) && EndsIn(s[e..], r)
    ensures BlockIn(s, e + r) && EndsIn(s, e + r)
  {
    var t := s[e..];
    forall j | 0 <= j < e + r - 1 ensures BulletAfter(s, j) {
      if j >= e {
        assert BulletAfter(t, j - e);
        assert t[j - e] == s[j] && t[j - e + 1] == s[j + 1];
      } else if j == e - 1 {
        assert t[0] == s[e];
      }
    }
    if r > 0 {
      assert t[r - 1] == s[e + r - 1];
      if e + r < |s| {
        assert t[r] == s[e + r];
      }
    } else if e < |s| {
      assert t[0] == s[e];
    }
  }

  /** Conversely, a block that the text ends is exactly the run. */
  lemma {:induction false} BulletRunWhole(s: string, n: nat)
    requires BlockIn(s, n) && EndsIn(s, n)
    ensures BulletRun(s) == n
    decreases |s|
  {
    var e := LineEnd(s);
    var t := s[e..];
    if e < n {
      assert s[e - 1] == '\n';
      assert BulletAfter(s, e - 1);
      forall j | 0 <= j < n - e - 1 ensures BulletAfter(t, j) {
        assert BulletAfter(s, j + e);
        assert t[j] == s[j + e] && t[j + 1] == s[j + e + 1];
      }
      assert t[0] == s[e] && t[n - e - 1] == s[n - 1];
      if n < |s| {
        assert t[n - e] == s[n];
      }
      BulletRunWhole(t, n - e);
    } else {
      if e < |s| {
        assert t[0] == s[e];
      }
    }
  }

  /** The matched text of `m` at the front of `s`, with either line break after the heading. */
  predicate MatchedText(s: string, m: Match) {
    m.len <= |s|
    && (s[..m.len] == Heading(m.category) + ("\n" + m.content)
        || s[..m.len] == Heading(m.category) + ("\r\n" + m.content))
  }

  /** The pattern tried at the front of `s`. */
  function MatchAt(s: string, labels: seq<string>): (m: Option<Match>)
    ensures m.Some? ==> m.value.category in labels && m.value.len > 0
  {
    match LabelAt(s, labels)
    case None => None
    case Some(category) => MatchAfter(category, s[|Heading(category)|..])
  }

  /** The rest of the pattern after the heading `### <category>`: the line break
      and the block of bullet lines. */
  function MatchAfter(category: string, t: string): (m: Option<Match>)
    ensures m.Some? ==> m.value.category == category && m.value.len > 0
  {
    var nl := NewlineAt(t);
    if nl == 0 then None
    else
      var c := BulletRun(t[nl..]);
      if c == 0 then None
      else Some(Match(category, t[nl..][..c], |Heading(category)| + nl + c))
  }

  /** A match is a heading, its line break and a block of bullets that the
      following text ends. */
  lemma MatchAtSound(s: string, labels: seq<string>)
    ensures MatchAt(s, labels).Some? ==>
      MatchedText(s, MatchAt(s, labels).value) && IsBlock(MatchAt(s, labels).value.content)
      && EndsBlock(MatchAt(s, labels).value.content, s[MatchAt(s, labels).value.len..])
  {
    if MatchAt(s, labels).Some? {
      var category := LabelAt(s, labels).value;
      var h := |Heading(category)|;
      var t := s[h..];
      var nl := NewlineAt(t);
      var u := t[nl..];
      var c := BulletRun(u);
      assert MatchAt(s, labels) == MatchAfter(category, t);
      BlockSplit(u, c);
      SliceSplit(s, h, nl, c);
    }
  }

  /** Slicing in three steps is slicing once. */
  lemma SliceSplit(s: string, h: nat, nl: nat, c: nat)
    requires h + nl + c <= |s|
    ensures s[..h + nl + c] == s[..h] + (s[h..][..nl] + s[h..][nl..][..c])
    ensures s[h + nl + c..] == s[h..][nl..][c..]
  {
    assert s[h..][nl..] == s[h + nl..];
    assert s[h + nl..][c..] == s[h + nl + c..];
    assert s[..h + nl + c] == s[..h] + s[h..h + nl + c];
    assert s[h..h + nl + c] == s[h..][..nl] + s[h + nl..][..c];
  }

  /** Conversely, a heading, its line break and a bullet block that the rest
      of the text ends is one match. */
  lemma MatchAtFront(labels: seq<string>, category: string, crlf: bool, c: string, rest: string)
    requires WellFormed(labels) && category in labels && IsBlock(c) && EndsBlock(c, rest)
    ensures
      MatchAt(Heading(category) + (Newline(crlf) + (c + rest)), labels)
      == Some(Match(category, c, |Heading(category)| + |Newline(crlf)| + |c|))
  {
    var t := Newline(crlf) + (c + rest);
    HeadingFront(labels, category, t);
    assert (Heading(category) + t)[|Heading(category)|..] == t;
    MatchAfterFront(category, crlf, c, rest);
  }

  lemma HeadingFront(labels: seq<string>, category: string, t: string)
    requires WellFormed(labels) && category in labels
    ensures LabelAt(Heading(category) + t, labels) == Some(category)
  {
    assert (Heading(category) + t)[..|Heading(category)|] == Heading(category);
    LabelAtUnique(Heading(category) + t, labels, category);
  }

  lemma MatchAfterFront(category: string, crlf: bool, c: string, rest: string)
    requires IsBlock(c) && EndsBlock(c, rest)
    ensures
      MatchAfter(category, Newline(crlf) + (c + rest))
      == Some(Match(category, c, |Heading(category)| + |Newline(crlf)| + |c|))
  {
    BlockFront(c, rest);
    var m := MatchAfter(category, Newline(crlf) + (c + rest));
    MatchAfterIs(category, crlf, c, rest, m);
  }

  lemma MatchAfterIs(category: string, crlf: bool, c: string, rest: string, m: Option<Match>)
    requires IsBlock(c) && EndsBlock(c, rest)
    requires m == MatchAfter(category, Newline(crlf) + (c + rest))
    ensures m == Some(Match(category, (c + rest)[..|c|], |Heading(category)| + |Newline(crlf)| + |c|))
  {
    NewlineFront(crlf, c + rest);
    BlockFront(c, rest);
    MatchAfterUnfold(category, Newline(crlf) + (c + rest), |Newline(crlf)|, c + rest, |c|);
  }

  /** `MatchAfter` on a text whose line break and bullet run are known. */
  lemma MatchAfterUnfold(category: string, t: string, nl: nat, u: string, c: nat)
    requires NewlineAt(t) == nl > 0 && t[nl..] == u
    requires BulletRun(u) == c > 0
    ensures MatchAfter(category, t) == Some(Match(category, u[..c], |Heading(category)| + nl + c))
  {
  }

  lemma NewlineFront(crlf: bool, u: string)
    ensures NewlineAt(Newline(crlf) + u) == |Newline(crlf)|
    ensures (Newline(crlf) + u)[|Newline(crlf)|..] == u
  {
    var t := Newline(crlf) + u;
    assert t[0] == Newline(crlf)[0];
    if crlf {
      assert t[1] == '\n';
    }
  }

  lemma BlockFront(c: string, rest: string)
    requires IsBlock(c) && EndsBlock(c, rest)
    ensures BulletRun(c + rest) == |c|
    ensures (c + rest)[..|c|] == c
  {
    BlockJoin(c, rest);
    BulletRunWhole(c + rest, |c|);
  }

  /** `re.findall`: matches are tried at every position from the left, and the
      scan resumes after each match. */
  function FindAll(s: string, labels: seq<string>): (ms: seq<Match>)
    ensures forall i :: 0 <= i < |ms| ==> ms[i].category in labels
    decreases |s|
  {
    if s == [] then []
    else
      match MatchAt(s, labels)
      case Some(m) => [m] + FindAll(s[m.len..], labels)
      case None => FindAll(s[1..], labels)
  }

  /** No match is found exactly when the pattern matches at no position. */
  lemma {:induction false} FindAllNone(s: string, labels: seq<string>)
    ensures FindAll(s, labels) == [] <==> forall k :: 0 <= k < |s| ==> MatchAt(s[k..], labels).None?
    decreases |s|
  {
    if s != [] && MatchAt(s, labels).None? {
      FindAllNone(s[1..], labels);
      if FindAll(s, labels) == [] {
        forall k | 0 <= k < |s| ensures MatchAt(s[k..], labels).None? {
          if k > 0 {
            assert s[k..] == s[1..][k - 1..];
          }
        }
      }
      if forall k :: 0 <= k < |s| ==> MatchAt(s[k..], labels).None? {
        forall k | 0 <= k < |s[1..]| ensures MatchAt(s[1..][k..], labels).None? {
          assert s[1..][k..] == s[k + 1..];
        }
      }
    }
    if s != [] && MatchAt(s, labels).Some? {
      assert s[0..] == s;
    }
  }

  /** Text before the first `#` holds no match: a heading need not start a
      line, but nothing is found before one. */
  lemma {:induction false} FindAllSkip(a: string, b: string, labels: seq<string>)
    requires '#' !in a
    ensures FindAll(a + b, labels) == FindAll(b, labels)
    decreases |a|
  {
    if a == [] {
      assert a + b == b;
    } else {
      assert (a + b)[0] == a[0];
      NoHashNoMatch(a + b, labels);
      assert (a + b)[1..] == a[1..] + b;
      FindAllSkip(a[1..], b, labels);
    }
  }

  lemma NoHashNoMatch(s: string, labels: seq<string>)
    requires s != [] && s[0] != '#'
    ensures MatchAt(s, labels).None?
  {
    forall i | 0 <= i < |labels| ensures !StartsWith(s, Heading(labels[i])) {
      assert Heading(labels[i])[0] == '#';
    }
  }

  /** A heading and its block at the front is the first match; the scan goes on
      with the line that ended the block. */
  lemma FindAllFront(labels: seq<string>, category: string, crlf: bool, c: string, rest: string)
    requires WellFormed(labels) && category in labels && IsBlock(c) && EndsBlock(c, rest)
    ensures
      FindAll(Heading(category) + (Newline(crlf) + (c + rest)), labels)
      == [Match(category, c, |Heading(category)| + |Newline(crlf)| + |c|)] + FindAll(rest, labels)
  {
    var s := Heading(category) + (Newline(crlf) + (c + rest));
    var m := Match(category, c, |Heading(category)| + |Newline(crlf)| + |c|);
    MatchAtFront(labels, category, crlf, c, rest);
    assert s[m.len..] == rest;
    var r := FindAll(s, labels);
    FindAllStep(s, labels, m, r);
  }

  /** A match at the front comes first, and the scan resumes after it. */
  lemma FindAllStep(s: string, labels: seq<string>, m: Match, r: seq<Match>)
    requires MatchAt(s, labels) == Some(m) && r == FindAll(s, labels)
    ensures r == [m] + FindAll(s[m.len..], labels)
  {
  }

  // ---------------------------------------------------------------------------
  // Entries and the resulting dictionary

  /** The bullet substitution: removes one leading `*` and the whitespace after
      it, and leaves a line without a leading `*` as it is. */
  function StripBullet(t: string): (r: string)
    ensures (t == [] || t[0] != '*') ==> r == t
    ensures t != [] && t[0] == '*' ==> r == TrimLeft(t[1..])
  {
    if t != [] && t[0] == '*' then TrimLeft(t[1..]) else t
  }

  /** One entry: the line stripped, its bullet removed, then link-converted. */
  function EntryOf(line: string, convert: string -> string): string {
    convert(StripBullet(Strip(line)))
  }

  /** The list comprehension over the lines of `content.strip().splitlines()`. */
  function EntriesOf(lines: seq<string>, convert: string -> string): (r: seq<string>)
    ensures |r| == |lines|
    ensures forall i :: 0 <= i < |lines| ==> r[i] == EntryOf(lines[i], convert)
  {
    if lines == [] then [] else [EntryOf(lines[0], convert)] + EntriesOf(lines[1..], convert)
  }

  function Entries(content: string, convert: string -> string): seq<string> {
    EntriesOf(SplitLines(Strip(content)), convert)
  }

  /** The entries collected for `category` from the matches, in match order. */
  function Collected(ms: seq<Match>, category: string, toEntries: string -> seq<string>): seq<string> {
    if ms == [] then []
    else
      var last := ms[|ms| - 1];
      Collected(ms[..|ms| - 1], category, toEntries)
      + (if last.category == category then toEntries(last.content) else [])
  }

  /** The non-empty categories among `labels`, in that order. */
  function Sections(labels: seq<string>, ms: seq<Match>, toEntries: string -> seq<string>): seq<Section> {
    if labels == [] then []
    else
      var category := labels[|labels| - 1];
      var entries := Collected(ms, category, toEntries);
      Sections(labels[..|labels| - 1], ms, toEntries)
      + (if entries != [] then [Section(category, entries)] else [])
  }

  /** The entries of one match's content, as a function of the content. */
  function EntriesFn(convert: string -> string): string -> seq<string> {
    content => Entries(content, convert)
  }

  /** What `parse_release_notes` returns, as the ordered list of the dictionary's items. */
  function Parsed(notes: string, convert: string -> string): seq<Section> {
    Sections(Labels, FindAll(notes, Labels), EntriesFn(convert))
  }

  /** `heading.replace('### ', '')` gives back the category. */
  lemma HeadingCategory(category: string)
    requires '#' !in category
    ensures Replace(Heading(category), "### ", "") == category
  {
    ReplaceFront("### ", category, "");
    ReplaceSkip(category, [], "### ", "");
    assert category + [] == category;
    assert "" + category == category;
  }

  /** `parse_release_notes(notes)`: a dictionary of all six categories, extended
      match by match, then filtered to its non-empty lists. */
  method ParseReleaseNotes(notes: string, convert: string -> string) returns (result: seq<Section>)
    ensures result == Parsed(notes, convert)
  {
    var headings := Labels;
    LabelsWellFormed();
    var matches := FindAll(notes, headings);
    var changelog := CollectEntries(headings, matches, convert);
    result := NonEmptyItems(headings, matches, changelog, EntriesFn(convert));
  }

  /** The dictionary that starts with an empty list for every heading, extended
      match by match, with the entries of each match under its category. */
  method CollectEntries(headings: seq<string>, matches: seq<Match>, convert: string -> string)
    returns (changelog: map<string, seq<string>>)
    requires WellFormed(headings)
    requires forall i :: 0 <= i < |matches| ==> matches[i].category in headings
    ensures forall h :: h in headings ==> h in changelog
    ensures forall h :: h in headings ==> changelog[h] == Collected(matches, h, EntriesFn(convert))
  {
    changelog := map h | h in headings :: [];
    for i := 0 to |matches|
      invariant forall h :: h in headings ==> h in changelog
      invariant forall h :: h in headings ==> changelog[h] == Collected(matches[..i], h, EntriesFn(convert))
    {
      var m := matches[i];
      NoHashIn(headings, m.category);
      HeadingCategory(m.category);
      var heading := Replace(Heading(m.category), "### ", "");
      changelog := changelog[heading := changelog[heading] + Entries(m.content, convert)];
      CollectedNext(matches, i, EntriesFn(convert));
    }
    assert matches[..|matches|] == matches;
  }

  lemma NoHashIn(labels: seq<string>, category: string)
    requires WellFormed(labels) && category in labels
    ensures '#' !in category
  {
    var k :| 0 <= k < |labels| && labels[k] == category;
  }

  /** One more match adds its entries to its own category and nothing to the others. */
  lemma CollectedNext(ms: seq<Match>, i: nat, toEntries: string -> seq<string>)
    requires i < |ms|
    ensures forall h ::
      Collected(ms[..i + 1], h, toEntries)
      == Collected(ms[..i], h, toEntries) + (if ms[i].category == h then toEntries(ms[i].content) else [])
  {
    assert ms[..i + 1][..i] == ms[..i];
  }

  /** The final filter: the dictionary's items in key order, keeping those whose
      list is non-empty, over a dictionary whose keys are `headings` in that
      order. */
  method NonEmptyItems(headings: seq<string>, matches: seq<Match>, changelog: map<string, seq<string>>,
                       toEntries: string -> seq<string>)
    returns (result: seq<Section>)
    requires forall h :: h in headings ==> h in changelog && changelog[h] == Collected(matches, h, toEntries)
    ensures result == Sections(headings, matches, toEntries)
  {
    result := [];
    for j := 0 to |headings|
      invariant result == Sections(headings[..j], matches, toEntries)
    {
      var h := headings[j];
      if changelog[h] != [] {
        result := result + [Section(h, changelog[h])];
      }
      assert headings[..j + 1][..j] == headings[..j];
    }
    assert headings[..|headings|] == headings;
  }

  // ---------------------------------------------------------------------------
  // Properties of the result

  lemma {:induction false} SectionsShape(labels: seq<string>, ms: seq<Match>, toEntries: string -> seq<string>)
    ensures Sound(Sections(labels, ms, toEntries), labels, ms, toEntries)
    ensures Complete(Sections(labels, ms, toEntries), labels, ms, toEntries)
    decreases |labels|
  {
    if labels != [] {
      var init, last := labels[..|labels| - 1], labels[|labels| - 1];
      SectionsShape(init, ms, toEntries);
      assert labels == init + [last];
      var r0 := Sections(init, ms, toEntries);
      var entries := Collected(ms, last, toEntries);
      var r := Sections(labels, ms, toEntries);
      assert r == r0 + (if entries != [] then [Section(last, entries)] else []);
      forall i | 0 <= i < |r|
        ensures r[i].category in labels && r[i].entries == Collected(ms, r[i].category, toEntries) != []
      {
        if i < |r0| {
          assert r[i] == r0[i];
        } else {
          assert r[i] == Section(last, entries);
        }
      }
      forall category | category in labels && Collected(ms, category, toEntries) != []
        ensures exists i :: 0 <= i < |r| && r[i].category == category
      {
        if category in init {
          var i :| 0 <= i < |r0| && r0[i].category == category;
          assert r[i] == r0[i];
        } else {
          assert r[|r| - 1].category == category;
        }
      }
    }
  }

  /** Every key is one of the six categories, every list is non-empty, and a
      category is a key exactly when entries were collected for it, which it
      then holds. */
  lemma ParsedKeys(notes: string, convert: string -> string)
    ensures Sound(Parsed(notes, convert), Labels, FindAll(notes, Labels), EntriesFn(convert))
    ensures Complete(Parsed(notes, convert), Labels, FindAll(notes, Labels), EntriesFn(convert))
  {
    SectionsShape(Labels, FindAll(notes, Labels), EntriesFn(convert));
  }

  lemma {:induction false} SectionsOrdered(labels: seq<string>, n: nat, ms: seq<Match>, toEntries: string -> seq<string>)
    requires WellFormed(labels) && n <= |labels|
    ensures forall i :: 0 <= i < |Sections(labels[..n], ms, toEntries)| ==>
      Position(labels, Sections(labels[..n], ms, toEntries)[i].category) < n
    ensures InOrder(Sections(labels[..n], ms, toEntries), labels)
  {
    if n > 0 {
      SectionsOrdered(labels, n - 1, ms, toEntries);
      assert labels[..n][..n - 1] == labels[..n - 1];
      assert labels[..n][n - 1] == labels[n - 1];
      PositionOf(labels, n - 1);
      var r0 := Sections(labels[..n - 1], ms, toEntries);
      var entries := Collected(ms, labels[n - 1], toEntries);
      var r := Sections(labels[..n], ms, toEntries);
      assert forall i :: 0 <= i < |r0| ==> Position(labels, r0[i].category) < n - 1;
      assert r == r0 + (if entries != [] then [Section(labels[n - 1], entries)] else []);
      forall i | 0 <= i < |r| ensures Position(labels, r[i].category) < n {
        if i < |r0| {
          assert r[i] == r0[i];
          assert Position(labels, r0[i].category) < n - 1;
        } else {
          assert r[i].category == labels[n - 1];
          assert Position(labels, labels[n - 1]) == n - 1;
        }
      }
      forall i, j | 0 <= i < j < |r| ensures Position(labels, r[i].category) < Position(labels, r[j].category) {
        assert r[i] == r0[i];
        if j < |r0| {
          assert r[j] == r0[j];
        } else {
          assert r[j].category == labels[n - 1];
        }
      }
    }
  }

  /** The keys come in the configured order, Highlights first and Maintenance
      last, whatever the order of the headings in the text. */
  lemma ParsedOrdered(notes: string, convert: string -> string)
    ensures InOrder(Parsed(notes, convert), Labels)
  {
    LabelsWellFormed();
    SectionsOrdered(Labels, |Labels|, FindAll(notes, Labels), EntriesFn(convert));
    assert Labels[..|Labels|] == Labels;
  }

  lemma {:induction false} SectionsOfNothing(labels: seq<string>, toEntries: string -> seq<string>)
    ensures Sections(labels, [], toEntries) == []
    decreases |labels|
  {
    if labels != [] {
      SectionsOfNothing(labels[..|labels| - 1], toEntries);
    }
  }

  /** A body in which no recognised heading is followed by its bullets, the
      empty body among them, gives the empty dictionary. */
  lemma ParsedNoMatch(notes: string, convert: string -> string)
    requires forall k :: 0 <= k < |notes| ==> MatchAt(notes[k..], Labels).None?
    ensures Parsed(notes, convert) == []
  {
    FindAllNone(notes, Labels);
    SectionsOfNothing(Labels, EntriesFn(convert));
  }

  lemma ParsedEmpty(convert: string -> string)
    ensures Parsed([], convert) == []
  {
    SectionsOfNothing(Labels, EntriesFn(convert));
  }

  lemma {:induction false} CollectedConcat(a: seq<Match>, b: seq<Match>, category: string, toEntries: string -> seq<string>)
    ensures Collected(a + b, category, toEntries) == Collected(a, category, toEntries) + Collected(b, category, toEntries)
    decreases |b|
  {
    if b == [] {
      assert a + b == a;
    } else {
      var b0, last := b[..|b| - 1], b[|b| - 1];
      CollectedConcat(a, b0, category, toEntries);
      assert (a + b)[..|a + b| - 1] == a + b0;
      assert (a + b)[|a + b| - 1] == last;
      EntriesAssoc(Collected(a, category, toEntries), Collected(b0, category, toEntries),
        if last.category == category then toEntries(last.content) else []);
    }
  }

  lemma EntriesAssoc(x: seq<string>, y: seq<string>, z: seq<string>)
    ensures (x + y) + z == x + (y + z)
  {
  }

  /** A heading that starts the text contributes its entries ahead of the ones
      found after it, so a repeated heading appends, in text order. */
  lemma CollectedFront(labels: seq<string>, category: string, crlf: bool, c: string, rest: string, key: string,
                       toEntries: string -> seq<string>)
    requires WellFormed(labels) && category in labels && IsBlock(c) && EndsBlock(c, rest)
    ensures
      Collected(FindAll(Heading(category) + (Newline(crlf) + (c + rest)), labels), key, toEntries)
      == (if key == category then toEntries(c) else []) + Collected(FindAll(rest, labels), key, toEntries)
  {
    var m := Match(category, c, |Heading(category)| + |Newline(crlf)| + |c|);
    var ms := FindAll(rest, labels);
    FindAllFront(labels, category, crlf, c, rest);
    CollectedConcat([m], ms, key, toEntries);
    assert [m][..0] == [];
  }

  /** The entry of a bullet line: surrounding whitespace, the `*` and the
      whitespace after it go, and the text between is converted. */
  lemma BulletEntry(p: string, w: string, x: string, q: string, convert: string -> string)
    requires AllSpace(p) && AllSpace(w) && AllSpace(q)
    requires x != [] && !IsSpace(x[0]) && !IsSpace(x[|x| - 1])
    ensures EntryOf(p + ("*" + (w + x)) + q, convert) == convert(x)
  {
    var r := "*" + (w + x);
    assert r[|r| - 1] == x[|x| - 1];
    StripUnique(p, r, q);
    assert r[1..] == w + x;
    TrimLeftSpaces(w, x);
  }
}
