/**
  * The draft-release agent of `source/agent2.py`: link rewriting by a fold of
  * global replacements over the mentioned names, the rewriting of the first
  * pull-request URL only, and the selection of every release with a tag and
  * a body.
  */
module DraftAgent {
  import opened Options
  import opened Text
  import opened Patterns
  import ReleaseNotes
  import opened Releases
  import SourceAgent

  // ---------------------------------------------------------------------------
  // Mentions: every `@` followed by word characters, as `findall` lists them

  /** The length of the name of a `@\w+` token at the front of `s`; 0 when
      none starts there. */
  function WordMentionAt(s: string): (n: nat)
    ensures n > 0 ==> 1 + n <= |s| && s[0] == '@' && IsRun(s[1..][..n], Word)
    ensures n > 0 ==> 1 + n == |s| || !InClass(s[1 + n], Word)
    ensures n > 0 <==> (|s| > 1 && s[0] == '@' && InClass(s[1], Word))
  {
    if s != [] && s[0] == '@' then Span(s[1..], Word) else 0
  }

  /** Some position of `s` starts a `@\w+` token. */
  predicate HasWordMention(s: string) {
    exists i :: 0 <= i < |s| && WordMentionAt(s[i..]) > 0
  }

  /** The names `findall` returns: scanning from the left, each `@` followed by
      a maximal run of word characters gives that run, and the scan resumes
      after it. */
  function Usernames(s: string): (names: seq<string>)
    ensures forall i :: 0 <= i < |names| ==> IsRun(names[i], Word)
    decreases |s|
  {
    if s == [] then []
    else
      var n := WordMentionAt(s);
      if n > 0 then [s[1..][..n]] + Usernames(s[1 + n..]) else Usernames(s[1..])
  }

  /** A token at the front gives its name first. */
  lemma UsernamesFront(name: string, rest: string)
    requires IsRun(name, Word)
    requires rest == [] || !InClass(rest[0], Word)
    ensures Usernames("@" + (name + rest)) == [name] + Usernames(rest)
  {
    var s := "@" + (name + rest);
    assert s[1..] == name + rest;
    SpanStops(name, rest, Word);
    assert s[1..][..|name|] == name;
    assert s[1 + |name|..] == rest;
  }

  /** Text without `@` gives no names. */
  lemma {:induction false} UsernamesSkip(a: string, b: string)
    requires '@' !in a
    ensures Usernames(a + b) == Usernames(b)
    decreases |a|
  {
    if a == [] {
      assert a + b == b;
    } else {
      var s := a + b;
      assert s[0] == a[0] && a[0] in a;
      assert s[1..] == a[1..] + b;
      assert '@' !in a[1..] by {
        forall j | 0 <= j < |a| - 1 ensures a[1..][j] != '@' {
          assert a[1..][j] == a[j + 1];
        }
      }
      UsernamesSkip(a[1..], b);
    }
  }

  lemma UsernamesNone(a: string)
    requires '@' !in a
    ensures Usernames(a) == []
  {
    UsernamesSkip(a, []);
    assert a + [] == a;
  }

  lemma WordMentionInTail(s: string, i: nat)
    requires 0 < i < |s|
    ensures s[1..][i - 1..] == s[i..]
  {
  }

  /** `findall` finds a name exactly when there is a token, and then the text
      holds `@` followed by the first name. */
  lemma {:induction false} UsernamesFound(s: string)
    ensures Usernames(s) != [] <==> HasWordMention(s)
    ensures Usernames(s) != [] ==> Contains(s, "@" + Usernames(s)[0])
    decreases |s|
  {
    if s != [] {
      var n := WordMentionAt(s);
      if n > 0 {
        assert WordMentionAt(s[0..]) > 0 by { assert s[0..] == s; }
        assert s[..1 + n] == "@" + s[1..][..n];
        assert StartsWith(s, "@" + Usernames(s)[0]);
      } else {
        UsernamesFound(s[1..]);
        if HasWordMention(s) {
          var i :| 0 <= i < |s| && WordMentionAt(s[i..]) > 0;
          assert i > 0 by { assert s[0..] == s; }
          WordMentionInTail(s, i);
          assert HasWordMention(s[1..]);
        } else {
          forall j | 0 <= j < |s| - 1 ensures WordMentionAt(s[1..][j..]) == 0 {
            WordMentionInTail(s, j + 1);
          }
          assert !HasWordMention(s[1..]);
        }
      }
    }
  }

  // ---------------------------------------------------------------------------
  // The fold: each listed name's `@name` replaced, in turn, by its link

  /** The text after the replacements for the first `|names|` names, each a
      global `str.replace` of `@name` by its link over the text so far. */
  function Wrapped(s: string, names: seq<string>): string
    decreases |names|
  {
    if names == [] then s
    else
      var u := names[|names| - 1];
      Replace(Wrapped(s, names[..|names| - 1]), "@" + u, SourceAgent.MentionLink(u))
  }

  /** The fold never shortens the text, and lengthens it when the first name's
      `@name` occurs in it. */
  lemma {:induction false} WrappedGrows(s: string, names: seq<string>)
    ensures |Wrapped(s, names)| >= |s|
    ensures names != [] && Contains(s, "@" + names[0]) ==> |Wrapped(s, names)| > |s|
    decreases |names|
  {
    if names != [] {
      var init := names[..|names| - 1];
      var u := names[|names| - 1];
      WrappedGrows(s, init);
      ReplaceGrows(Wrapped(s, init), "@" + u, SourceAgent.MentionLink(u));
      if init == [] {
        assert Wrapped(s, init) == s;
        assert u == names[0];
      } else {
        assert init[0] == names[0];
      }
    }
  }

  // ---------------------------------------------------------------------------
  // The first pull-request URL: owner, repository and number located by a search

  /** A match of the search: where it starts and what it matched. */
  datatype Found = Found(at: nat, url: PrUrl)

  /** The match of the pattern, if any, at each position of `s`. */
  function MatchesIn(s: string): (ms: seq<Option<PrUrl>>)
    ensures |ms| == |s|
    ensures forall j :: 0 <= j < |s| ==> ms[j] == PrUrlAt(s[j..])
  {
    seq(|s|, j requires 0 <= j < |s| => PrUrlAt(s[j..]))
  }

  /** The first match in `ms` from position `from` on. */
  function FirstMatch(ms: seq<Option<PrUrl>>, from: nat): (m: Option<Found>)
    ensures m.Some? ==> from <= m.value.at < |ms| && ms[m.value.at] == Some(m.value.url)
    ensures m.Some? ==> forall j :: from <= j < m.value.at ==> ms[j].None?
    ensures m.None? ==> forall j :: from <= j < |ms| ==> ms[j].None?
    decreases |ms| - from
  {
    if from >= |ms| then None
    else
      match ms[from]
      case Some(u) => Some(Found(from, u))
      case None => FirstMatch(ms, from + 1)
  }

  /** `re.search`: the match at the first position at which the pattern
      matches. */
  function Search(s: string): (m: Option<Found>)
    ensures m.Some? ==> m.value.at < |s| && PrUrlAt(s[m.value.at..]) == Some(m.value.url)
    ensures m.Some? ==> forall j :: 0 <= j < m.value.at ==> PrUrlAt(s[j..]).None?
  {
    FirstMatch(MatchesIn(s), 0)
  }

  /** The search finds something exactly when a URL starts somewhere. */
  lemma SearchFinds(s: string)
    ensures Search(s).Some? <==> HasPrUrl(s)
  {
    var ms := MatchesIn(s);
    if Search(s).Some? {
      assert PrUrlAt(s[Search(s).value.at..]).Some?;
    } else {
      forall i | 0 <= i < |s| ensures PrUrlAt(s[i..]).None? {
        assert ms[i].None?;
      }
    }
  }

  /** The label `[repo#N](url)`, where `repo` is the second path segment. */
  function PrLabel(repo: string, number: string, url: string): string {
    "[" + (repo + ("#" + (number + ("](" + (url + ")")))))
  }

  /** The matched text of a search result. */
  function FoundText(s: string, f: Found): string
    requires f.at < |s| && PrUrlAt(s[f.at..]) == Some(f.url)
  {
    s[f.at..][..f.url.len]
  }

  /** source/agent2.py lines 70-75: only the first URL is located; every occurrence of exactly
      its text is then replaced by its label. */
  function LinkFirstPr(s: string): string {
    match Search(s)
    case None => s
    case Some(f) =>
      var url := FoundText(s, f);
      Replace(s, url, PrLabel(f.url.repo, f.url.number, url))
  }

  /** The rewriting never shortens the text, and leaves it as it is exactly when
      it holds no URL. */
  lemma LinkFirstPrChanges(s: string)
    ensures |LinkFirstPr(s)| >= |s|
    ensures LinkFirstPr(s) == s <==> !HasPrUrl(s)
  {
    SearchFinds(s);
    var m := Search(s);
    if m.Some? {
      var f := m.value;
      var url := FoundText(s, f);
      var linked := PrLabel(f.url.repo, f.url.number, url);
      FoundInText(s, f);
      ReplaceGrows(s, url, linked);
    }
  }

  /** The matched text occurs in the text and is shorter than its label. */
  lemma FoundInText(s: string, f: Found)
    requires f.at < |s| && PrUrlAt(s[f.at..]) == Some(f.url)
    ensures Contains(s, FoundText(s, f))
    ensures 0 < |FoundText(s, f)| < |PrLabel(f.url.repo, f.url.number, FoundText(s, f))|
  {
    MatchedLength(s[f.at..], f.url);
    SliceContained(s, f.at, f.url.len);
  }

  lemma MatchedLength(t: string, u: PrUrl)
    requires |t| > 14 && UrlMatched(t, t[14], u)
    ensures 0 < u.len <= |t|
  {
    UrlTextLength(t[14], u.owner, u.repo, u.number);
  }

  lemma {:induction false} SliceContained(s: string, at: nat, n: nat)
    requires at + n <= |s|
    ensures Contains(s, s[at..][..n])
    decreases at
  {
    if at == 0 {
      assert s[at..][..n] == s[..n];
    } else {
      SliceContained(s[1..], at - 1, n);
      assert s[1..][at - 1..] == s[at..];
    }
  }

  /** `convert_links` as a value: the fold over the names, then the first URL. */
  function Converted(change: string): string {
    LinkFirstPr(Wrapped(change, Usernames(change)))
  }

  /** `convert_links` of source/agent2.py. */
  method ConvertLinks(change: string) returns (result: string)
    ensures result == Converted(change)
  {
    var usernames := Usernames(change);
    result := change;
    for k := 0 to |usernames|
      invariant result == Wrapped(change, usernames[..k])
    {
      var username := usernames[k];
      assert usernames[..k + 1][..k] == usernames[..k];
      result := Replace(result, "@" + username, SourceAgent.MentionLink(username));
    }
    assert usernames[..|usernames|] == usernames;
    var prLinkMatch := Search(result);
    if prLinkMatch.Some? {
      var repoName := prLinkMatch.value.url.repo;
      var prNumber := prLinkMatch.value.url.number;
      var prLink := FoundText(result, prLinkMatch.value);
      result := Replace(result, prLink, PrLabel(repoName, prNumber, prLink));
    }
  }

  /** An entry is returned as it is exactly when it holds no `@\w+` token and no
      pull-request URL. */
  lemma ConvertedUnchanged(change: string)
    ensures Converted(change) == change <==> !HasWordMention(change) && !HasPrUrl(change)
  {
    var names := Usernames(change);
    UsernamesFound(change);
    WrappedGrows(change, names);
    LinkFirstPrChanges(Wrapped(change, names));
    if names == [] {
      assert Wrapped(change, names) == change;
    }
  }

  // ---------------------------------------------------------------------------
  // Consequences of the fold

  /** One token, and no other `@`: it becomes its link and nothing else changes. */
  lemma SingleMention(p: string, name: string, q: string)
    requires '@' !in p && '@' !in q && IsRun(name, Word)
    requires q == [] || !InClass(q[0], Word)
    ensures Usernames(p + ("@" + (name + q))) == [name]
    ensures Wrapped(p + ("@" + (name + q)), [name]) == p + (SourceAgent.MentionLink(name) + q)
  {
    var pat := "@" + name;
    var link := SourceAgent.MentionLink(name);
    var s := p + ("@" + (name + q));
    UsernamesSkip(p, "@" + (name + q));
    UsernamesFront(name, q);
    UsernamesNone(q);
    assert Wrapped(s, [name]) == Replace(s, pat, link) by {
      assert [name][..0] == [];
    }
    Assoc("@", name, q);
    ReplaceSkip(p, pat + q, pat, link);
    ReplaceFront(pat, q, link);
    NotContainsFirst(q, pat);
    ReplaceAbsent(q, pat, link);
  }

  /** A hyphen ends a name: in `@a-b` only `@a` is linked. */
  lemma HyphenEndsName(name: string, rest: string)
    requires IsRun(name, Word) && '@' !in rest
    ensures Usernames("@" + (name + ("-" + rest))) == [name]
    ensures Wrapped("@" + (name + ("-" + rest)), [name]) == SourceAgent.MentionLink(name) + ("-" + rest)
  {
    SingleMention([], name, "-" + rest);
    assert [] + ("@" + (name + ("-" + rest))) == "@" + (name + ("-" + rest));
    assert [] + (SourceAgent.MentionLink(name) + ("-" + rest)) == SourceAgent.MentionLink(name) + ("-" + rest);
  }

  /** The text of the link after its `@name`. */
  function LinkTail(name: string): string {
    "](https://github.com/" + (name + ")")
  }

  lemma LinkParts(name: string)
    ensures SourceAgent.MentionLink(name) == "[" + (("@" + name) + LinkTail(name))
    ensures LinkTail(name) != [] && LinkTail(name)[0] == ']'
    ensures IsRun(name, Word) ==> '@' !in LinkTail(name)
  {
    Assoc("@", name, LinkTail(name));
    if IsRun(name, Word) {
      forall j | 0 <= j < |LinkTail(name)| ensures LinkTail(name)[j] != '@' {
        if 21 <= j < 21 + |name| {
          assert LinkTail(name)[j] == name[j - 21];
        }
      }
    }
  }

  /** The fold over two names: two replacements, in order. */
  lemma WrappedPair(s: string, u: string, v: string)
    ensures Wrapped(s, [u, v])
      == Replace(Replace(s, "@" + u, SourceAgent.MentionLink(u)), "@" + v, SourceAgent.MentionLink(v))
  {
    assert Wrapped(s, [u]) == Replace(s, "@" + u, SourceAgent.MentionLink(u)) by {
      assert [u][..0] == [];
    }
    assert [u, v][..1] == [u];
  }

  /** Two occurrences separated by text that cannot start one are both replaced. */
  lemma ReplaceBoth(pat: string, sep: string, b: string, repl: string)
    requires |pat| > 0 && pat[0] !in sep && pat[0] !in b
    ensures Replace(pat + (sep + (pat + b)), pat, repl) == repl + (sep + (repl + b))
  {
    ReplaceFront(pat, sep + (pat + b), repl);
    ReplaceSkip(sep, pat + b, pat, repl);
    ReplaceFront(pat, b, repl);
    NotContainsFirst(b, pat);
    ReplaceAbsent(b, pat, repl);
  }

  /** Replacing `pat` in a link `[` + `pat` + `tail` wraps the link once more. */
  lemma ReplaceInWrapped(pat: string, tail: string, link: string, x: string)
    requires |pat| > 0 && pat[0] != '[' && pat[0] !in tail
    requires link == "[" + (pat + tail)
    ensures Replace(link + x, pat, link) == "[" + (link + (tail + Replace(x, pat, link)))
  {
    assert link + x == "[" + (pat + (tail + x)) by {
      Assoc("[", pat + tail, x);
      Assoc(pat, tail, x);
    }
    ReplaceSkip("[", pat + (tail + x), pat, link);
    ReplaceFront(pat, tail + x, link);
    ReplaceSkip(tail, x, pat, link);
  }

  /** Usernames of `@name @name`. */
  lemma UsernamesTwice(name: string)
    requires IsRun(name, Word)
    ensures Usernames("@" + (name + (" " + ("@" + name)))) == [name, name]
  {
    UsernamesFront(name, " " + ("@" + name));
    UsernamesSkip(" ", "@" + name);
    UsernamesFront(name, []);
    assert name + [] == name;
  }

  /** A name mentioned twice is linked twice, the second replacement wrapping
      both links again: `@a @a` becomes `[[@a](…a)](…a) [[@a](…a)](…a)`. */
  lemma DoubleWrap(name: string)
    requires IsRun(name, Word)
    ensures Usernames("@" + (name + (" " + ("@" + name)))) == [name, name]
    ensures Wrapped("@" + (name + (" " + ("@" + name))), [name, name])
      == ("[" + (SourceAgent.MentionLink(name) + LinkTail(name)))
         + (" " + ("[" + (SourceAgent.MentionLink(name) + LinkTail(name))))
  {
    var pat := "@" + name;
    var link := SourceAgent.MentionLink(name);
    var tail := LinkTail(name);
    var s := "@" + (name + (" " + pat));
    UsernamesTwice(name);
    LinkParts(name);
    WrappedPair(s, name, name);
    var once := Replace(s, pat, link);
    assert once == link + (" " + link) by {
      Assoc("@", name, " " + pat);
      assert pat + [] == pat;
      ReplaceBoth(pat, " ", [], link);
      assert link + [] == link;
    }
    var v := "[" + (link + tail);
    assert Replace(link, pat, link) == v by {
      ReplaceInWrapped(pat, tail, link, []);
      assert link + [] == link;
      assert tail + [] == tail;
    }
    assert Replace(once, pat, link) == "[" + (link + (tail + (" " + v))) by {
      ReplaceInWrapped(pat, tail, link, " " + link);
      ReplaceSkip(" ", link, pat, link);
    }
    Assoc(link, tail, " " + v);
    Assoc("[", link + tail, " " + v);
  }

  /** A lone mention whose name is letters and digits converts to its link,
      and converting that link again wraps its `@name` once more: the
      converter is not idempotent. */
  lemma ConvertedNotIdempotent(name: string)
    requires IsRun(name, Word) && IsRun(name, AlnumOrHyphen)
    ensures Converted("@" + name) == SourceAgent.MentionLink(name)
    ensures Converted(Converted("@" + name)) != Converted("@" + name)
  {
    var link := SourceAgent.MentionLink(name);
    SingleMention([], name, []);
    assert [] + ("@" + (name + [])) == "@" + name;
    assert [] + (link + []) == link;
    SourceAgent.MentionLinkNoUrl(name);
    LinkFirstPrChanges(link);
    assert link[1..][0] == '@' && link[1..][1..][0] == name[0];
    assert WordMentionAt(link[1..]) > 0;
    assert HasWordMention(link);
    ConvertedUnchanged(link);
  }

  /** Usernames of `@a @ab`. */
  lemma UsernamesExtended(a: string, b: string)
    requires IsRun(a, Word) && IsRun(b, Word)
    ensures Usernames("@" + (a + (" " + ("@" + (a + b))))) == [a, a + b]
  {
    UsernamesFront(a, " " + ("@" + (a + b)));
    UsernamesSkip(" ", "@" + (a + b));
    assert IsRun(a + b, Word);
    UsernamesFront(a + b, []);
    assert (a + b) + [] == a + b;
  }

  /** A name that extends an earlier one is clobbered: for `@al @alice` the
      replacement of `@al` also rewrites the front of `@alice`, after which
      `@alice` no longer occurs and is not linked. */
  lemma PrefixClobber(a: string, b: string)
    requires IsRun(a, Word) && IsRun(b, Word)
    ensures Usernames("@" + (a + (" " + ("@" + (a + b))))) == [a, a + b]
    ensures Wrapped("@" + (a + (" " + ("@" + (a + b)))), [a, a + b])
      == SourceAgent.MentionLink(a) + (" " + (SourceAgent.MentionLink(a) + b))
  {
    var pat := "@" + a;
    var link := SourceAgent.MentionLink(a);
    var s := "@" + (a + (" " + ("@" + (a + b))));
    UsernamesExtended(a, b);
    WrappedPair(s, a, a + b);
    assert Replace(s, pat, link) == link + (" " + (link + b)) by {
      Assoc("@", a, " " + ("@" + (a + b)));
      Assoc("@", a, b);
      NoAtIn(b, []);
      assert b + [] == b;
      ReplaceBoth(pat, " ", b, link);
    }
    LinkParts(a);
    ClobberedUntouched(a, b, link, LinkTail(a), SourceAgent.MentionLink(a + b));
  }

  /** After the first replacement `@a` + `b` no longer occurs: each `@` is
      followed by `a` and then `]`. */
  lemma ClobberedUntouched(a: string, b: string, link: string, tail: string, repl: string)
    requires IsRun(a, Word) && IsRun(b, Word)
    requires link == "[" + (("@" + a) + tail) && tail != [] && tail[0] == ']' && '@' !in tail
    ensures Replace(link + (" " + (link + b)), "@" + (a + b), repl) == link + (" " + (link + b))
  {
    var pat := "@" + a;
    var pat2 := "@" + (a + b);
    NoAtIn(a, tail);
    assert pat[1..] == a;
    var x := " " + (link + b);
    assert link + b == "[" + (pat + (tail + b)) by {
      Assoc("[", pat + tail, b);
      Assoc(pat, tail, b);
    }
    assert Replace(link + b, pat2, repl) == link + b by {
      NoAtIn(b, []);
      assert b + [] == b;
      NotContainsFirst(b, pat2);
      ReplaceAbsent(b, pat2, repl);
      Assoc("@", a, tail + b);
      LinkedNotAt(a, b, tail + b, pat2);
      ReplaceAfterMiss('[', pat, tail, b, pat2, repl);
    }
    assert link + x == "[" + (pat + (tail + x)) by {
      Assoc("[", pat + tail, x);
      Assoc(pat, tail, x);
    }
    assert Replace(link + x, pat2, repl) == link + x by {
      ReplaceSkip(" ", link + b, pat2, repl);
      Assoc("@", a, tail + x);
      LinkedNotAt(a, b, tail + x, pat2);
      ReplaceAfterMiss('[', pat, tail, x, pat2, repl);
    }
  }

  /** Past a character and an occurrence of `pat` that cannot start `pat2`,
      replacing `pat2` only acts on what follows. */
  lemma ReplaceAfterMiss(c: char, pat: string, tail: string, x: string, pat2: string, repl: string)
    requires |pat| > 0 && |pat2| > 0 && pat2[0] != c && pat2[0] !in pat[1..] + tail
    requires !StartsWith(pat + (tail + x), pat2)
    ensures Replace([c] + (pat + (tail + x)), pat2, repl) == [c] + (pat + (tail + Replace(x, pat2, repl)))
  {
    ReplaceSkip([c], pat + (tail + x), pat2, repl);
    ReplaceMiss(pat, tail, x, pat2, repl);
  }

  lemma ReplaceMiss(pat: string, tail: string, x: string, pat2: string, repl: string)
    requires |pat| > 0 && |pat2| > 0 && pat2[0] !in pat[1..] + tail
    requires !StartsWith(pat + (tail + x), pat2)
    ensures Replace(pat + (tail + x), pat2, repl) == pat + (tail + Replace(x, pat2, repl))
  {
    var a := pat[1..] + tail;
    var r := Replace(x, pat2, repl);
    assert pat + (tail + x) == [pat[0]] + (a + x) by {
      assert pat == [pat[0]] + pat[1..];
      Assoc(pat[1..], tail, x);
      Assoc([pat[0]], pat[1..], tail + x);
    }
    ReplaceMissStep(pat[0], a, x, pat2, repl);
    assert [pat[0]] + (a + r) == pat + (tail + r) by {
      assert pat == [pat[0]] + pat[1..];
      Assoc(pat[1..], tail, r);
      Assoc([pat[0]], pat[1..], tail + r);
    }
  }

  lemma ReplaceMissStep(h: char, a: string, x: string, pat2: string, repl: string)
    requires |pat2| > 0 && pat2[0] !in a
    requires !StartsWith([h] + (a + x), pat2)
    ensures Replace([h] + (a + x), pat2, repl) == [h] + (a + Replace(x, pat2, repl))
  {
    ReplaceNotAt([h] + (a + x), pat2, repl);
    assert ([h] + (a + x))[1..] == a + x;
    ReplaceSkip(a, x, pat2, repl);
  }

  /** Neither part holds an `@`. */
  lemma NoAtIn(a: string, t: string)
    requires AllIn(a, Word) && '@' !in t
    ensures '@' !in a + t
  {
    assert '@' !in a by {
      forall j | 0 <= j < |a| ensures a[j] != '@' {
        assert InClass(a[j], Word);
      }
    }
  }

  /** `@a]…` does not start with `@a` + `b` when `b` starts with a word character. */
  lemma LinkedNotAt(a: string, b: string, t: string, pat: string)
    requires IsRun(a, Word) && IsRun(b, Word) && t != [] && t[0] == ']'
    requires pat == "@" + (a + b)
    ensures !StartsWith("@" + (a + t), pat)
  {
    var s := "@" + (a + t);
    if |pat| <= |s| {
      assert s[..|pat|][1 + |a|] == ']';
      assert pat[1 + |a|] == b[0] && InClass(b[0], Word);
    }
  }

  // ---------------------------------------------------------------------------
  // Consequences of the search

  /** The first URL is the one replaced: with no URL before it (no `h` in
      front), its label replaces it, and a rest that does not contain its text,
      even one holding other URLs, is left as it is. */
  lemma FirstPrOnly(p: string, dot: char, owner: string, repo: string, number: string, rest: string)
    requires 'h' !in p && IsUrlParts(dot, owner, repo, number)
    requires rest == [] || !IsAsciiDigit(rest[0])
    requires !Contains(rest, UrlText(dot, owner, repo, number))
    ensures LinkFirstPr(p + (UrlText(dot, owner, repo, number) + rest))
      == p + (PrLabel(repo, number, UrlText(dot, owner, repo, number)) + rest)
  {
    var url := UrlText(dot, owner, repo, number);
    var s := p + (url + rest);
    var linked := PrLabel(repo, number, url);
    var f := Found(|p|, PrUrl(owner, repo, number, |url|));
    assert s[|p|..] == url + rest;
    PrUrlAtFront(dot, owner, repo, number, rest);
    SearchSkips(s, p);
    var m := Search(s);
    assert m == Some(f) by {
      SearchAt(s, |p|, f);
    }
    assert FoundText(s, f) == url;
    assert url[0] == 'h';
    ReplaceSkip(p, url + rest, url, linked);
    ReplaceFront(url, rest, linked);
    ReplaceAbsent(rest, url, linked);
  }

  /** No URL starts inside a prefix without `h`. */
  lemma SearchSkips(s: string, p: string)
    requires p <= s && 'h' !in p
    ensures forall j :: 0 <= j < |p| ==> PrUrlAt(s[j..]).None?
  {
    forall j | 0 <= j < |p| ensures PrUrlAt(s[j..]).None? {
      assert s[j..][0] == p[j];
      NoUrlAt(s[j..]);
    }
  }

  /** The search stops at the first position with a match. */
  lemma SearchAt(s: string, k: nat, f: Found)
    requires k < |s| && f.at == k && PrUrlAt(s[k..]) == Some(f.url)
    requires forall j :: 0 <= j < k ==> PrUrlAt(s[j..]).None?
    ensures Search(s) == Some(f)
  {
    var ms := MatchesIn(s);
    forall j | 0 <= j < k ensures ms[j].None? {
      assert ms[j] == PrUrlAt(s[j..]);
    }
    FirstMatchAt(ms, 0, k, f);
  }

  lemma {:induction false} FirstMatchAt(ms: seq<Option<PrUrl>>, from: nat, k: nat, f: Found)
    requires from <= k < |ms| && f.at == k && ms[k] == Some(f.url)
    requires forall j :: from <= j < k ==> ms[j].None?
    ensures FirstMatch(ms, from) == Some(f)
    decreases k - from
  {
    if from < k {
      FirstMatchAt(ms, from + 1, k, f);
    }
  }

  // ---------------------------------------------------------------------------
  // Selecting releases (get_draft_releases)

  /** A release enters the list: a non-empty tag and a non-empty body. */
  predicate DraftSelected(r: Release) {
    r.tag != [] && r.body.Some? && r.body.value != []
  }

  /** `get_draft_releases` after the listing is fetched: every release with a
      tag and a body contributes its non-empty sections; there is no cap. */
  method DraftReleases(releases: seq<Release>) returns (allChanges: seq<ReleaseEntry>)
    ensures allChanges == Kept(releases, DraftSelected, Converted)
  {
    allChanges := [];
    for i := 0 to |releases|
      invariant allChanges == Kept(releases[..i], DraftSelected, Converted)
    {
      var release := releases[i];
      KeptNext(releases, i, DraftSelected, Converted);
      var releaseVersion := release.tag;
      if releaseVersion != [] {
        var changesSection := release.body;
        if changesSection.Some? && changesSection.value != [] {
          var entry := EntryOf(release, Converted);
          allChanges := allChanges + [entry];
        }
      }
    }
    assert releases[..|releases|] == releases;
  }

  /** No cap: when every release has a tag and a body, every one has its entry. */
  lemma DraftKeepsAll(rs: seq<Release>)
    requires forall i :: 0 <= i < |rs| ==> DraftSelected(rs[i])
    ensures |Kept(rs, DraftSelected, Converted)| == |rs|
  {
    KeptAll(rs, DraftSelected, Converted);
  }
}
