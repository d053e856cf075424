/**
  * The changelog agent of `source/agent.py`: the two-pass link rewriting of
  * an entry, the release-tag check and the selection of at most ten releases
  * whose notes are parsed into sections.
  */
module SourceAgent {
  import opened Options
  import opened Text
  import opened Patterns
  import ReleaseNotes
  import opened Releases

  // ---------------------------------------------------------------------------
  // Mentions: `@` + a run of ASCII letters, digits and hyphens becomes a
  // Markdown link to the user's GitHub page

  /** The replacement text for the mention `@name`. */
  function MentionLink(name: string): string {
    "[@" + (name + ("](https://github.com/" + (name + ")")))
  }

  /** The length of the name of a mention at the front of `s`; 0 when no
      mention starts there. */
  function MentionAt(s: string): (n: nat)
    ensures n > 0 ==> 1 + n <= |s| && s[0] == '@' && IsRun(s[1..][..n], AlnumOrHyphen)
    ensures n > 0 ==> 1 + n == |s| || !InClass(s[1 + n], AlnumOrHyphen)
    ensures n > 0 <==> (|s| > 1 && s[0] == '@' && InClass(s[1], AlnumOrHyphen))
  {
    if s != [] && s[0] == '@' then Span(s[1..], AlnumOrHyphen) else 0
  }

  /** Some position of `s` starts a mention. */
  predicate HasMention(s: string) {
    exists i :: 0 <= i < |s| && MentionAt(s[i..]) > 0
  }

  /** The first `re.sub`: scanning from the left, each `@` followed by a
      maximal run of ASCII letters, digits and hyphens becomes a link, and
      the scan resumes after the run; any other character is copied. */
  function SubMentions(s: string): (r: string)
    ensures |r| >= |s|
    decreases |s|
  {
    if s == [] then []
    else
      var n := MentionAt(s);
      if n > 0 then MentionLink(s[1..][..n]) + SubMentions(s[1 + n..])
      else [s[0]] + SubMentions(s[1..])
  }

  /** A mention at the front is rewritten and the scan resumes after its name. */
  lemma SubMentionsFront(name: string, rest: string)
    requires IsRun(name, AlnumOrHyphen)
    requires rest == [] || !InClass(rest[0], AlnumOrHyphen)
    ensures SubMentions("@" + (name + rest)) == MentionLink(name) + SubMentions(rest)
  {
    var s := "@" + (name + rest);
    assert s[1..] == name + rest;
    SpanStops(name, rest, AlnumOrHyphen);
    assert MentionAt(s) == |name|;
    assert s[1..][..|name|] == name;
    assert s[1 + |name|..] == rest;
  }

  /** A text that is one mention becomes its link. */
  lemma MentionOnly(name: string, sub: string)
    requires IsRun(name, AlnumOrHyphen) && sub == SubMentions("@" + name)
    ensures sub == MentionLink(name)
  {
    SubMentionsFront(name, []);
    assert name + [] == name;
    assert MentionLink(name) + [] == MentionLink(name);
  }

  /** An `@` that no name follows is copied. */
  lemma SubMentionsBareAt(rest: string)
    requires rest == [] || !InClass(rest[0], AlnumOrHyphen)
    ensures SubMentions("@" + rest) == "@" + SubMentions(rest)
  {
    var s := "@" + rest;
    assert s[1..] == rest;
  }

  /** Text without `@` is copied. */
  lemma {:induction false} SubMentionsSkip(a: string, b: string)
    requires '@' !in a
    ensures SubMentions(a + b) == a + SubMentions(b)
    decreases |a|
  {
    if a == [] {
      assert a + b == b;
    } else {
      assert a[0] in a;
      assert '@' !in a[1..] by {
        forall j | 0 <= j < |a| - 1 ensures a[1..][j] != '@' {
          assert a[1..][j] == a[j + 1];
        }
      }
      calc {
        SubMentions(a + b);
        { SubMentionsCopy(a, b); }
        [a[0]] + SubMentions(a[1..] + b);
        { SubMentionsSkip(a[1..], b); }
        [a[0]] + (a[1..] + SubMentions(b));
        { Assoc([a[0]], a[1..], SubMentions(b)); assert [a[0]] + a[1..] == a; }
        a + SubMentions(b);
      }
    }
  }

  /** A first character that does not start a mention is copied. */
  lemma SubMentionsCopy(a: string, b: string)
    requires a != [] && a[0] != '@'
    ensures SubMentions(a + b) == [a[0]] + SubMentions(a[1..] + b)
  {
    var s := a + b;
    assert s[0] == a[0];
    assert s[1..] == a[1..] + b;
  }

  /** A mention not at the front of `s` is a mention of `s[1..]`. */
  lemma MentionInTail(s: string, i: nat)
    requires 0 < i < |s|
    ensures s[1..][i - 1..] == s[i..]
  {
  }

  /** The rewriting changes the text exactly when it holds a mention, and then
      it makes it longer. */
  lemma {:induction false} SubMentionsChanges(s: string)
    ensures HasMention(s) ==> |SubMentions(s)| > |s|
    ensures !HasMention(s) ==> SubMentions(s) == s
    decreases |s|
  {
    if s != [] {
      var n := MentionAt(s);
      if n > 0 {
        assert MentionAt(s[0..]) > 0 by { assert s[0..] == s; }
        assert |MentionLink(s[1..][..n])| == 24 + 2 * n;
      } else {
        SubMentionsChanges(s[1..]);
        if HasMention(s) {
          var i :| 0 <= i < |s| && MentionAt(s[i..]) > 0;
          assert i > 0 by { assert s[0..] == s; }
          MentionInTail(s, i);
          assert HasMention(s[1..]);
        } else {
          forall j | 0 <= j < |s| - 1 ensures MentionAt(s[1..][j..]) == 0 {
            MentionInTail(s, j + 1);
          }
          assert !HasMention(s[1..]);
          assert s == [s[0]] + s[1..];
        }
      }
    }
  }

  // ---------------------------------------------------------------------------
  // Pull requests: each pull-request URL becomes a link labelled `#` + number

  /** The replacement text for a pull-request URL `url` with number `number`. */
  function PrLink(number: string, url: string): string {
    "[#" + (number + ("](" + (url + ")")))
  }

  /** The second `re.sub`: each pull-request URL, scanned from the left, becomes
      `[#N](URL)`, and the scan resumes after it; any other character is copied. */
  function LinkPrs(s: string): (r: string)
    ensures |r| >= |s|
    decreases |s|
  {
    if s == [] then []
    else
      match PrUrlAt(s)
      case Some(u) => PrLink(u.number, s[..u.len]) + LinkPrs(s[u.len..])
      case None => [s[0]] + LinkPrs(s[1..])
  }

  /** A URL at the front is rewritten and the scan resumes after it. */
  lemma LinkPrsFront(dot: char, owner: string, repo: string, number: string, rest: string)
    requires IsUrlParts(dot, owner, repo, number)
    requires rest == [] || !IsAsciiDigit(rest[0])
    ensures LinkPrs(UrlText(dot, owner, repo, number) + rest)
      == PrLink(number, UrlText(dot, owner, repo, number)) + LinkPrs(rest)
  {
    var url := UrlText(dot, owner, repo, number);
    var s := url + rest;
    PrUrlAtFront(dot, owner, repo, number, rest);
    assert s[..|url|] == url;
    assert s[|url|..] == rest;
  }

  /** Text without an `h` cannot start a URL and is copied. */
  lemma {:induction false} LinkPrsSkip(a: string, b: string)
    requires 'h' !in a
    ensures LinkPrs(a + b) == a + LinkPrs(b)
    decreases |a|
  {
    if a == [] {
      assert a + b == b;
    } else {
      assert a[0] in a;
      assert 'h' !in a[1..] by {
        forall j | 0 <= j < |a| - 1 ensures a[1..][j] != 'h' {
          assert a[1..][j] == a[j + 1];
        }
      }
      calc {
        LinkPrs(a + b);
        { LinkPrsCopy(a, b); }
        [a[0]] + LinkPrs(a[1..] + b);
        { LinkPrsSkip(a[1..], b); }
        [a[0]] + (a[1..] + LinkPrs(b));
        { Assoc([a[0]], a[1..], LinkPrs(b)); assert [a[0]] + a[1..] == a; }
        a + LinkPrs(b);
      }
    }
  }

  /** A first character other than `h` is copied. */
  lemma LinkPrsCopy(a: string, b: string)
    requires a != [] && a[0] != 'h'
    ensures LinkPrs(a + b) == [a[0]] + LinkPrs(a[1..] + b)
  {
    var s := a + b;
    assert s[0] == a[0];
    NoUrlAt(s);
    assert s[1..] == a[1..] + b;
  }

  /** The rewriting changes the text exactly when it holds a pull-request URL,
      and then it makes it longer. */
  lemma {:induction false} LinkPrsChanges(s: string)
    ensures HasPrUrl(s) ==> |LinkPrs(s)| > |s|
    ensures !HasPrUrl(s) ==> LinkPrs(s) == s
    decreases |s|
  {
    if s != [] {
      match PrUrlAt(s)
      case Some(u) =>
        assert PrUrlAt(s[0..]).Some? by { assert s[0..] == s; }
        assert |PrLink(u.number, s[..u.len])| == 5 + |u.number| + u.len;
        assert |u.number| > 0;
      case None =>
        LinkPrsChanges(s[1..]);
        if HasPrUrl(s) {
          var i :| 0 <= i < |s| && PrUrlAt(s[i..]).Some?;
          assert i > 0 by { assert s[0..] == s; }
          MentionInTail(s, i);
          assert HasPrUrl(s[1..]);
        } else {
          forall j | 0 <= j < |s| - 1 ensures PrUrlAt(s[1..][j..]).None? {
            MentionInTail(s, j + 1);
          }
          assert !HasPrUrl(s[1..]);
          assert s == [s[0]] + s[1..];
        }
    }
  }

  /** `convert_links`: mentions first, then pull-request URLs. */
  function ConvertLinks(change: string): string {
    LinkPrs(SubMentions(change))
  }

  /** An entry is left as it is exactly when it holds neither a mention nor a
      pull-request URL. */
  lemma ConvertLinksUnchanged(change: string)
    ensures ConvertLinks(change) == change <==> !HasMention(change) && !HasPrUrl(change)
  {
    SubMentionsChanges(change);
    LinkPrsChanges(SubMentions(change));
    if !HasMention(change) {
      LinkPrsChanges(change);
    }
  }

  /** The link made for a mention holds no pull-request URL: its only `:` is
      the one of `https:`, and the name after `https://github.com/` is followed
      by `)`, never by the `/` that must end a URL's owner segment. */
  lemma MentionLinkNoUrl(name: string)
    requires IsRun(name, AlnumOrHyphen)
    ensures !HasPrUrl(MentionLink(name))
  {
    var s := MentionLink(name);
    var n := |name|;
    MentionLinkColon(name);
    MentionLinkSlash(name);
    forall i | 0 <= i < |s| ensures PrUrlAt(s[i..]).None? {
      if i == n + 4 {
        forall k | 20 <= k < |s[i..]| ensures s[i..][k] != '/' {
          assert s[i..][k] == s[i + k];
        }
        NoUrlSlash(s[i..]);
      } else {
        if i + 5 < |s| {
          assert s[i..][5] == s[i + 5];
        }
        NoUrlColon(s[i..]);
      }
    }
  }

  /** The only `:` of a mention link is the one of `https:`. */
  lemma MentionLinkColon(name: string)
    requires IsRun(name, AlnumOrHyphen)
    ensures forall j :: 0 <= j < |MentionLink(name)| && j != |name| + 9 ==> MentionLink(name)[j] != ':'
  {
    var s := MentionLink(name);
    var n := |name|;
    var mid := "](https://github.com/";
    forall j | 0 <= j < |s| && j != n + 9 ensures s[j] != ':' {
      if 2 <= j < 2 + n {
        assert s[j] == name[j - 2];
        assert InClass(name[j - 2], AlnumOrHyphen);
      } else if 2 + n <= j < 23 + n {
        assert s[j] == mid[j - 2 - n];
      } else if 23 + n <= j < 23 + 2 * n {
        assert s[j] == name[j - 23 - n];
        assert InClass(name[j - 23 - n], AlnumOrHyphen);
      }
    }
  }

  /** After `https://github.com/` a mention link holds no `/`. */
  lemma MentionLinkSlash(name: string)
    requires IsRun(name, AlnumOrHyphen)
    ensures forall j :: |name| + 23 <= j < |MentionLink(name)| ==> MentionLink(name)[j] != '/'
  {
    var s := MentionLink(name);
    var n := |name|;
    assert |s| == 24 + 2 * n;
    forall j | n + 23 <= j < |s| ensures s[j] != '/' {
      if j < 23 + 2 * n {
        assert s[j] == name[j - 23 - n];
        assert InClass(name[j - 23 - n], AlnumOrHyphen);
      }
    }
  }

  /** A lone mention converts to exactly its link: the second pass finds no
      URL in it. */
  lemma ConvertedMention(name: string)
    requires IsRun(name, AlnumOrHyphen)
    ensures ConvertLinks("@" + name) == MentionLink(name)
  {
    MentionOnly(name, SubMentions("@" + name));
    MentionLinkNoUrl(name);
    LinkPrsChanges(MentionLink(name));
  }

  /** The rewriting is not idempotent: the link made for `@name` holds the
      mention `@name` again, so a second pass links it once more. */
  lemma ConvertLinksNotIdempotent(name: string)
    requires IsRun(name, AlnumOrHyphen)
    ensures ConvertLinks(ConvertLinks("@" + name)) != ConvertLinks("@" + name)
  {
    var tail := "](https://github.com/" + (name + ")");
    ConvertedMention(name);
    Assoc("[@", name, tail);
    ConvertGrows(name, MentionLink(name), tail);
  }

  /** A text that starts with `[@name` holds a mention, so converting it makes it longer. */
  lemma ConvertGrows(name: string, once: string, rest: string)
    requires IsRun(name, AlnumOrHyphen) && once == ("[@" + name) + rest
    ensures |ConvertLinks(once)| > |once|
  {
    assert HasMention(once) by {
      assert once[1..] == "@" + (name + rest);
      MentionStarts(name, rest);
    }
    SubMentionsChanges(once);
  }

  /** `@` followed by a name starts a mention. */
  lemma MentionStarts(name: string, rest: string)
    requires IsRun(name, AlnumOrHyphen)
    ensures MentionAt("@" + (name + rest)) > 0
  {
    var s := "@" + (name + rest);
    assert s[1..] == name + rest;
    assert (name + rest)[0] == name[0];
  }

  // ---------------------------------------------------------------------------
  // Release tags: `v` and three dot-separated digit groups, nothing more

  /** The tag check. `$` also matches before a newline that ends the text, so a
      tag with one trailing newline passes too. */
  predicate IsReleaseTag(tag: string) {
    |tag| > 0 && tag[0] == 'v'
    && (DottedGroups(tag[1..]) == Some(3)
        || (|tag| > 1 && tag[|tag| - 1] == '\n' && DottedGroups(tag[1..|tag| - 1]) == Some(3)))
  }

  /** A tag passes exactly when, after its `v` and with at most one final
      newline dropped, it splits at its dots into three non-empty digit runs. */
  lemma ReleaseTagSplit(tag: string)
    requires |tag| > 0 && tag[0] == 'v'
    ensures IsReleaseTag(tag) <==>
      (|Split(tag[1..], '.')| == 3 && AllRuns(Split(tag[1..], '.'), Digit))
      || (|tag| > 1 && tag[|tag| - 1] == '\n'
          && |Split(tag[1..|tag| - 1], '.')| == 3 && AllRuns(Split(tag[1..|tag| - 1], '.'), Digit))
  {
    DottedGroupsSplit(tag[1..]);
    if |tag| > 1 {
      DottedGroupsSplit(tag[1..|tag| - 1]);
    }
  }

  /** Three digit groups joined by dots: `a.b.c`. */
  function Dotted3(a: string, b: string, c: string): string {
    a + ("." + (b + ("." + c)))
  }

  lemma Dotted3Append(a: string, b: string, c: string, t: string)
    ensures Dotted3(a, b, c) + t == a + ("." + (b + ("." + (c + t))))
  {
    Assoc(a, "." + (b + ("." + c)), t);
    Assoc(".", b + ("." + c), t);
    Assoc(b, "." + c, t);
    Assoc(".", c, t);
  }

  lemma Dotted3Groups(a: string, b: string, c: string, t: string, g: Option<nat>)
    requires IsRun(a, Digit) && IsRun(b, Digit) && DottedGroups(c + t) == g
    ensures DottedGroups(Dotted3(a, b, c) + t)
      == match g case Some(n) => Some(n + 2) case None => None
  {
    Dotted3Append(a, b, c, t);
    DottedGroupsDot(b, c + t);
    DottedGroupsDot(a, b + ("." + (c + t)));
  }

  /** Every `v` followed by three dot-separated digit groups is a release tag,
      with or without one trailing newline. */
  lemma ReleaseTagAccepts(a: string, b: string, c: string)
    requires IsRun(a, Digit) && IsRun(b, Digit) && IsRun(c, Digit)
    ensures IsReleaseTag("v" + Dotted3(a, b, c))
    ensures IsReleaseTag("v" + (Dotted3(a, b, c) + "\n"))
  {
    DottedGroupsRun(c);
    assert c + [] == c;
    Dotted3Groups(a, b, c, [], Some(1));
    assert Dotted3(a, b, c) + [] == Dotted3(a, b, c);
    TagOf("v" + Dotted3(a, b, c), Dotted3(a, b, c));
    TagOfNewline("v" + (Dotted3(a, b, c) + "\n"), Dotted3(a, b, c));
  }

  /** Two groups are too few. */
  lemma ReleaseTagRejectsTwo(a: string, b: string)
    requires IsRun(a, Digit) && IsRun(b, Digit)
    ensures !IsReleaseTag("v" + (a + ("." + b)))
  {
    var body := a + ("." + b);
    DottedGroupsRun(b);
    DottedGroupsDot(a, b);
    assert body[|body| - 1] == b[|b| - 1];
    NotTag("v" + body, body);
  }

  /** Anything after the third group, such as a pre-release suffix `-rc1`, is
      rejected (unless it is one newline). */
  lemma ReleaseTagRejectsSuffix(a: string, b: string, c: string, x: string)
    requires IsRun(a, Digit) && IsRun(b, Digit) && IsRun(c, Digit)
    requires x == [] || x[|x| - 1] != '\n'
    ensures !IsReleaseTag("v" + (Dotted3(a, b, c) + ("-" + x)))
  {
    var body := Dotted3(a, b, c) + ("-" + x);
    DottedGroupsStop(c, '-', x);
    assert "-" + x == ['-'] + x;
    Dotted3Groups(a, b, c, "-" + x, None);
    assert body[|body| - 1] == ("-" + x)[|"-" + x| - 1];
    NotTag("v" + body, body);
  }

  lemma TagOf(tag: string, body: string)
    requires tag == "v" + body && DottedGroups(body) == Some(3)
    ensures IsReleaseTag(tag)
  {
    assert tag[1..] == body;
  }

  lemma TagOfNewline(tag: string, body: string)
    requires tag == "v" + (body + "\n") && DottedGroups(body) == Some(3)
    ensures IsReleaseTag(tag)
  {
    assert tag[1..|tag| - 1] == body;
  }

  /** A body with other than three groups, that does not end in a newline, is
      rejected. */
  lemma NotTag(tag: string, body: string)
    requires tag == "v" + body
    requires body != [] && body[|body| - 1] != '\n' && DottedGroups(body) != Some(3)
    ensures !IsReleaseTag(tag)
  {
    assert tag[1..] == body;
    assert tag[|tag| - 1] == body[|body| - 1];
  }

  // ---------------------------------------------------------------------------
  // Selecting releases (get_changes_from_releases)

  /** At most this many releases are collected. */
  const MaxReleases: nat := 10

  /** A release enters the changelog: a valid tag and a non-empty body. */
  predicate Selected(r: Release) {
    IsReleaseTag(r.tag) && r.body.Some? && r.body.value != []
  }

  /** `get_changes_from_releases` after the listing is fetched: releases are
      visited in order until ten entries are collected; a release with a valid
      tag and a non-empty body has its notes parsed and contributes its
      non-empty sections. */
  method ChangesFromReleases(releases: seq<Release>) returns (allChanges: seq<ReleaseEntry>)
    ensures allChanges == Take(Kept(releases, Selected, ConvertLinks), MaxReleases)
    ensures |allChanges| <= MaxReleases
  {
    allChanges := [];
    var i := 0;
    while i < |releases|
      invariant 0 <= i <= |releases|
      invariant allChanges == Kept(releases[..i], Selected, ConvertLinks) && |allChanges| <= MaxReleases
    {
      if |allChanges| >= MaxReleases {
        break;
      }
      var release := releases[i];
      KeptNext(releases, i, Selected, ConvertLinks);
      if IsReleaseTag(release.tag) && release.body.Some? && release.body.value != [] {
        var entry := EntryOf(release, ConvertLinks);
        allChanges := allChanges + [entry];
      }
      i := i + 1;
    }
    KeptPrefix(releases, i, Selected, ConvertLinks);
    if i == |releases| {
      assert releases[..i] == releases;
    }
  }

  /** Every entry carries the valid tag of one of the releases, verbatim, and
      comes from a release with a non-empty body. */
  lemma SelectedTags(rs: seq<Release>)
    ensures forall k :: 0 <= k < |Kept(rs, Selected, ConvertLinks)| ==>
      IsReleaseTag(Kept(rs, Selected, ConvertLinks)[k].version)
      && exists i :: 0 <= i < |rs| && rs[i].tag == Kept(rs, Selected, ConvertLinks)[k].version
                     && rs[i].body.Some? && rs[i].body.value != []
  {
    var kept := Kept(rs, Selected, ConvertLinks);
    KeptOrigins(rs, Selected, ConvertLinks);
    forall k | 0 <= k < |kept|
      ensures IsReleaseTag(kept[k].version)
      ensures exists i :: 0 <= i < |rs| && rs[i].tag == kept[k].version && rs[i].body.Some? && rs[i].body.value != []
    {
      var i := KeptIndices(rs, Selected)[k];
      assert MadeFrom(rs, kept[k], i, Selected, ConvertLinks);
      assert Selected(rs[i]);
    }
  }
}
