/**
  * The page-scraping agent of `agent.py`, on the data its HTML navigation
  * yields: the version check applied to the text of each release link, the
  * Markdown rendering of the child nodes of a list item, the dictionary
  * of whitelisted `h3` headings after the "What's Changed" heading, and the
  * loop over the release links of the releases page.
  */
module PageAgent {
  import opened Options
  import opened Text
  import opened Patterns
  import opened ReleaseNotes

  // ---------------------------------------------------------------------------
  // The version check on a release link's stripped text: `v`, digits, then
  // any number of `.` + digits

  /** The pattern `^v\d+(\.\d+)*$` matches `t`; `$` also matches before one
      final newline. */
  predicate IsVersionTag(t: string) {
    |t| > 0 && t[0] == 'v'
    && (DottedGroups(t[1..]).Some?
        || (|t| > 1 && t[|t| - 1] == '\n' && DottedGroups(t[1..|t| - 1]).Some?))
  }

  /** A release link is followed when its stripped text is a version tag. */
  predicate IsReleaseLink(linkText: string) {
    IsVersionTag(Strip(linkText))
  }

  /** The stripped text cannot end in a newline, so the check is exactly: a `v`,
      then pieces between dots that are all non-empty digit runs. */
  lemma ReleaseLinkSplit(linkText: string)
    ensures IsReleaseLink(linkText) <==>
      var v := Strip(linkText);
      |v| > 0 && v[0] == 'v' && AllRuns(Split(v[1..], '.'), Digit)
  {
    var v := Strip(linkText);
    if |v| > 0 {
      DottedGroupsSplit(v[1..]);
      assert IsSpace('\n');
    }
  }

  /** `v` and one group, such as `v1`, passes. */
  lemma VersionAcceptsOne(a: string)
    requires IsRun(a, Digit)
    ensures IsVersionTag("v" + a)
  {
    DottedGroupsRun(a);
    assert ("v" + a)[1..] == a;
  }

  /** One more group in front of a passing tag body passes; so `v1.2.3` passes. */
  lemma VersionAcceptsDotted(a: string, body: string)
    requires IsRun(a, Digit) && DottedGroups(body).Some?
    ensures DottedGroups(a + ("." + body)).Some?
    ensures IsVersionTag("v" + (a + ("." + body)))
  {
    DottedGroupsDot(a, body);
    assert ("v" + (a + ("." + body)))[1..] == a + ("." + body);
  }

  /** Text that does not start with `v`, such as `1.2.3`, fails. */
  lemma VersionRejectsNoPrefix(t: string)
    requires t == [] || t[0] != 'v'
    ensures !IsVersionTag(t)
  {
  }

  /** A trailing dot, as in `v1.`, fails. */
  lemma VersionRejectsTrailingDot(a: string)
    requires IsRun(a, Digit)
    ensures !IsVersionTag("v" + (a + "."))
  {
    var t := "v" + (a + ".");
    DottedGroupsDot(a, []);
    assert a + ("." + []) == a + ".";
    assert t[1..] == a + ".";
    assert t[|t| - 1] == '.';
  }

  /** `v` alone fails. */
  lemma VersionRejectsBare()
    ensures !IsVersionTag("v")
  {
    assert "v"[1..] == [];
  }

  // ---------------------------------------------------------------------------
  // convert_links(li): the child nodes of a list item rendered as Markdown

  /** A child node of a list item: an `a` element, with its `href` attribute
      (absent or a value) and its text, or any other node, text or element,
      whose `str()` is kept. */
  datatype Node = Anchor(href: Option<string>, text: string) | Other(html: string)

  /** `[text](href)`. */
  function MarkdownLink(text: string, href: string): string {
    "[" + (text + ("](" + (href + ")")))
  }

  /** What one node adds to the text: a link with a non-empty `href` and
      non-empty text becomes a Markdown link, one without contributes nothing,
      any other node is copied. */
  function NodeText(n: Node): string {
    match n
    case Anchor(href, text) =>
      if href.Some? && href.value != [] && text != [] then MarkdownLink(text, href.value) else []
    case Other(html) => html
  }

  /** The text accumulated over the nodes, before stripping. */
  function Rendered(nodes: seq<Node>): string
    decreases |nodes|
  {
    if nodes == [] then [] else Rendered(nodes[..|nodes| - 1]) + NodeText(nodes[|nodes| - 1])
  }

  /** `convert_links` of agent.py. */
  method ConvertLinks(contents: seq<Node>) returns (result: string)
    ensures result == Entry(contents)
  {
    var newText := "";
    for i := 0 to |contents|
      invariant newText == Rendered(contents[..i])
    {
      assert contents[..i + 1][..i] == contents[..i];
      var elem := contents[i];
      if elem.Anchor? {
        var href := elem.href;
        var text := elem.text;
        if href.Some? && href.value != [] && text != [] {
          newText := newText + MarkdownLink(text, href.value);
        }
      } else {
        newText := newText + elem.html;
      }
    }
    assert contents[..|contents|] == contents;
    result := Strip(newText);
  }

  /** Rendering works node by node: the nodes of a concatenation render to the
      concatenation of their texts. */
  lemma {:induction false} RenderedAppend(a: seq<Node>, b: seq<Node>)
    ensures Rendered(a + b) == Rendered(a) + Rendered(b)
    decreases |b|
  {
    if b == [] {
      assert a + b == a;
    } else {
      var init, last := b[..|b| - 1], b[|b| - 1];
      assert b == init + [last];
      assert a + b == (a + init) + [last];
      RenderedSnoc(a + init, last);
      RenderedSnoc(init, last);
      RenderedAppend(a, init);
      Assoc(Rendered(a), Rendered(init), NodeText(last));
    }
  }

  lemma RenderedSnoc(nodes: seq<Node>, n: Node)
    ensures Rendered(nodes + [n]) == Rendered(nodes) + NodeText(n)
  {
    assert (nodes + [n])[..|nodes|] == nodes;
  }

  lemma RenderedOne(n: Node)
    ensures Rendered([n]) == NodeText(n)
  {
    assert [n][..0] == [];
  }

  /** A link with an `href` and text appears as `[text](href)` between the
      texts of its neighbours. */
  lemma RenderedLink(a: seq<Node>, href: string, text: string, b: seq<Node>)
    requires href != [] && text != []
    ensures Rendered(a + ([Anchor(Some(href), text)] + b)) == Rendered(a) + (MarkdownLink(text, href) + Rendered(b))
  {
    RenderedAppend(a, [Anchor(Some(href), text)] + b);
    RenderedAppend([Anchor(Some(href), text)], b);
    RenderedOne(Anchor(Some(href), text));
  }

  /** A link without an `href` value or without text contributes nothing. */
  lemma RenderedBrokenLink(a: seq<Node>, href: Option<string>, text: string, b: seq<Node>)
    requires href.None? || href.value == [] || text == []
    ensures Rendered(a + ([Anchor(href, text)] + b)) == Rendered(a) + Rendered(b)
  {
    RenderedAppend(a, [Anchor(href, text)] + b);
    RenderedAppend([Anchor(href, text)], b);
    RenderedOne(Anchor(href, text));
    assert [] + Rendered(b) == Rendered(b);
  }

  /** Any other node is copied verbatim. */
  lemma RenderedOther(a: seq<Node>, html: string, b: seq<Node>)
    ensures Rendered(a + ([Other(html)] + b)) == Rendered(a) + (html + Rendered(b))
  {
    RenderedAppend(a, [Other(html)] + b);
    RenderedAppend([Other(html)], b);
    RenderedOne(Other(html));
  }

  /** Only the ends are stripped: surrounding whitespace goes, and text that
      has none is returned whole. */
  lemma ConvertedStrip(p: string, r: string, q: string, contents: seq<Node>)
    requires Rendered(contents) == p + r + q && AllSpace(p) && AllSpace(q)
    requires r == [] || (!IsSpace(r[0]) && !IsSpace(r[|r| - 1]))
    ensures Strip(Rendered(contents)) == r
  {
    StripUnique(p, r, q);
  }

  /** A list item that is just a link renders as that link. */
  lemma ConvertedLinkOnly(href: string, text: string)
    requires href != [] && text != []
    ensures Strip(Rendered([Anchor(Some(href), text)])) == MarkdownLink(text, href)
  {
    var link := MarkdownLink(text, href);
    RenderedOne(Anchor(Some(href), text));
    assert link[0] == '[' && link[|link| - 1] == ')';
    assert [] + link + [] == link;
    StripUnique([], link, []);
  }

  // ---------------------------------------------------------------------------
  // The whitelist: a recorded heading maps to the converted items of its list

  /** The five labels that are recorded; the Highlights heading is not one. */
  const PageLabels: seq<string> := [Features, BugFixes, Documentation, Dependencies, Maintenance]

  lemma HighlightsNotRecorded()
    ensures Highlights !in PageLabels
  {
    LabelsWellFormed();
    assert Labels[0] == Highlights;
    assert forall i :: 0 <= i < |PageLabels| ==> PageLabels[i] == Labels[i + 1];
  }

  /** An `h3` heading after the "What's Changed" heading: its text and the
      items of the `ul` that follows it as a sibling, if there is one, each
      given by its child nodes. */
  datatype Heading3 = Heading3(title: string, list: Option<seq<seq<Node>>>)

  /** The headings with their texts stripped of surrounding whitespace; the
      whitelist is applied to these. */
  function StripTitles(hs: seq<Heading3>): (r: seq<Heading3>)
    ensures |r| == |hs|
    decreases |hs|
  {
    if hs == [] then []
    else
      var h := hs[|hs| - 1];
      StripTitles(hs[..|hs| - 1]) + [Heading3(Strip(h.title), h.list)]
  }

  /** The heading is recorded: its label is whitelisted and a list follows it. */
  predicate Recorded(h: Heading3, labels: seq<string>) {
    h.title in labels && h.list.Some?
  }

  /** What `convert_links` returns for a list item with these child nodes. */
  function Entry(li: seq<Node>): string {
    Strip(Rendered(li))
  }

  /** The converted items of a list, in order. */
  function Items(lis: seq<seq<Node>>): seq<string> {
    MapSeq(Entry, lis)
  }

  /** `f` applied to each element, in order. */
  function MapSeq<A, B>(f: A -> B, s: seq<A>): (r: seq<B>)
    ensures |r| == |s|
    ensures forall i :: 0 <= i < |s| ==> r[i] == f(s[i])
  {
    seq(|s|, i requires 0 <= i < |s| => f(s[i]))
  }

  lemma MapSeqNext<A, B>(f: A -> B, s: seq<A>, i: nat)
    requires i < |s|
    ensures MapSeq(f, s[..i + 1]) == MapSeq(f, s[..i]) + [f(s[i])]
  {
    var a := MapSeq(f, s[..i + 1]);
    var b := MapSeq(f, s[..i]) + [f(s[i])];
    assert |a| == |b|;
    forall j | 0 <= j < |a| ensures a[j] == b[j] {
      assert s[..i + 1][j] == s[j];
    }
  }

  // An ordered dictionary from labels to lists of entries.

  function Keys(d: seq<Section>): (ks: seq<string>)
    ensures |ks| == |d|
    ensures forall i :: 0 <= i < |d| ==> ks[i] == d[i].category
    decreases |d|
  {
    if d == [] then [] else [d[0].category] + Keys(d[1..])
  }

  /** No key occurs twice. */
  predicate Distinct(ks: seq<string>) {
    forall i, j :: 0 <= i < j < |ks| ==> ks[i] != ks[j]
  }

  /** `d[k]`, or `None` when `k` is not a key. */
  function Lookup(d: seq<Section>, k: string): Option<seq<string>>
    decreases |d|
  {
    if d == [] then None else if d[0].category == k then Some(d[0].entries) else Lookup(d[1..], k)
  }

  /** `d[k] = v`: a key already present keeps its place and gets the new value;
      a new key goes last. */
  function Put(d: seq<Section>, k: string, v: seq<string>): seq<Section>
    decreases |d|
  {
    if d == [] then [Section(k, v)]
    else if d[0].category == k then [Section(k, v)] + d[1..]
    else [d[0]] + Put(d[1..], k, v)
  }

  /** The keys after an assignment: unchanged when the key was present, one
      more at the end when it was not. */
  lemma {:induction false} PutKeys(d: seq<Section>, k: string, v: seq<string>)
    requires Distinct(Keys(d))
    ensures Keys(Put(d, k, v)) == if k in Keys(d) then Keys(d) else Keys(d) + [k]
    ensures Distinct(Keys(Put(d, k, v)))
    decreases |d|
  {
    if d != [] {
      assert Keys(d) == [d[0].category] + Keys(d[1..]);
      assert Distinct(Keys(d[1..])) by {
        forall i, j | 0 <= i < j < |Keys(d[1..])| ensures Keys(d[1..])[i] != Keys(d[1..])[j] {
          assert Keys(d)[i + 1] == Keys(d[1..])[i];
          assert Keys(d)[j + 1] == Keys(d[1..])[j];
        }
      }
      if d[0].category == k {
        assert k in Keys(d);
        assert Keys(Put(d, k, v)) == [k] + Keys(d[1..]);
      } else {
        PutKeys(d[1..], k, v);
        assert k in Keys(d) <==> k in Keys(d[1..]);
        var ks := Keys(Put(d, k, v));
        assert ks == [d[0].category] + Keys(Put(d[1..], k, v));
        assert d[0].category !in Keys(Put(d[1..], k, v));
      }
    }
  }

  /** After `d[k] = v`, `k` maps to `v` and every other key keeps its value. */
  lemma {:induction false} PutLookup(d: seq<Section>, k: string, v: seq<string>, j: string)
    ensures Lookup(Put(d, k, v), j) == if j == k then Some(v) else Lookup(d, j)
    decreases |d|
  {
    if d != [] && d[0].category != k {
      PutLookup(d[1..], k, v, j);
    }
  }

  /** A key has a value exactly when it is one of the keys. */
  lemma {:induction false} LookupKeys(d: seq<Section>, k: string)
    ensures Lookup(d, k).Some? <==> k in Keys(d)
    decreases |d|
  {
    if d != [] {
      LookupKeys(d[1..], k);
    }
  }

  /** The dictionary built from the headings, in order. */
  function Changes(hs: seq<Heading3>, labels: seq<string>): seq<Section>
    decreases |hs|
  {
    if hs == [] then []
    else
      var h := hs[|hs| - 1];
      var d := Changes(hs[..|hs| - 1], labels);
      if Recorded(h, labels) then Put(d, h.title, Items(h.list.value)) else d
  }

  /** The loop at agent.py:46-51 over the `h3` headings. */
  method CollectChanges(headings: seq<Heading3>) returns (changes: seq<Section>)
    ensures changes == Changes(StripTitles(headings), PageLabels)
  {
    changes := [];
    for i := 0 to |headings|
      invariant changes == Changes(StripTitles(headings[..i]), PageLabels)
    {
      var h3 := headings[i];
      var category := Strip(h3.title);
      assert StripTitles(headings[..i + 1]) == StripTitles(headings[..i]) + [Heading3(category, h3.list)] by {
        assert headings[..i + 1][..i] == headings[..i];
      }
      ChangesNext(StripTitles(headings[..i]), PageLabels, Heading3(category, h3.list));
      if category in PageLabels {
        var ul := h3.list;
        if ul.Some? {
          var entries := ConvertAll(ul.value);
          changes := Put(changes, category, entries);
        }
      }
    }
    assert headings[..|headings|] == headings;
  }

  /** One more heading is recorded or ignored. */
  lemma ChangesNext(hs: seq<Heading3>, labels: seq<string>, h: Heading3)
    ensures Changes(hs + [h], labels)
      == if Recorded(h, labels) then Put(Changes(hs, labels), h.title, Items(h.list.value)) else Changes(hs, labels)
  {
    assert (hs + [h])[..|hs|] == hs;
  }

  /** The list of the converted items of a heading's list, in document order. */
  method ConvertAll(lis: seq<seq<Node>>) returns (entries: seq<string>)
    ensures entries == Items(lis)
  {
    entries := [];
    for i := 0 to |lis|
      invariant entries == Items(lis[..i])
    {
      var entry := ConvertLinks(lis[i]);
      ItemsNext(lis, i, entry);
      entries := entries + [entry];
    }
    assert lis[..|lis|] == lis;
  }

  lemma ItemsNext(lis: seq<seq<Node>>, i: nat, entry: string)
    requires i < |lis| && entry == Entry(lis[i])
    ensures Items(lis[..i + 1]) == Items(lis[..i]) + [entry]
  {
    MapSeqNext(Entry, lis, i);
  }

  /** The labels of the recorded headings, in order, repeats included. */
  function RecordedLabels(hs: seq<Heading3>, labels: seq<string>): seq<string>
    decreases |hs|
  {
    if hs == [] then []
    else RecordedLabels(hs[..|hs| - 1], labels) + (if Recorded(hs[|hs| - 1], labels) then [hs[|hs| - 1].title] else [])
  }

  /** The first occurrence of each element, in order. */
  function FirstOccurrences(s: seq<string>): seq<string>
    decreases |s|
  {
    if s == [] then []
    else
      var last := s[|s| - 1];
      FirstOccurrences(s[..|s| - 1]) + (if last in s[..|s| - 1] then [] else [last])
  }

  lemma {:induction false} FirstOccurrencesSame(s: seq<string>, x: string)
    ensures x in FirstOccurrences(s) <==> x in s
    decreases |s|
  {
    if s != [] {
      var init := s[..|s| - 1];
      FirstOccurrencesSame(init, x);
      assert s == init + [s[|s| - 1]];
    }
  }

  /** The keys of the result are the recorded labels, each once, in the order
      of their first heading: a repeated heading overwrites the value but does
      not move the key. */
  lemma {:induction false} ChangesKeys(hs: seq<Heading3>, labels: seq<string>)
    ensures Keys(Changes(hs, labels)) == FirstOccurrences(RecordedLabels(hs, labels))
    ensures Distinct(Keys(Changes(hs, labels)))
    decreases |hs|
  {
    if hs != [] {
      var init := hs[..|hs| - 1];
      var h := hs[|hs| - 1];
      ChangesKeys(init, labels);
      var d := Changes(init, labels);
      var rl := RecordedLabels(hs, labels);
      if Recorded(h, labels) {
        PutKeys(d, h.title, Items(h.list.value));
        assert rl[..|rl| - 1] == RecordedLabels(init, labels);
        assert rl[|rl| - 1] == h.title;
        FirstOccurrencesSame(RecordedLabels(init, labels), h.title);
      } else {
        assert rl == RecordedLabels(init, labels);
      }
    }
  }

  /** Every key is one of the five whitelisted labels. */
  lemma ChangesWhitelisted(hs: seq<Heading3>, labels: seq<string>)
    ensures forall i :: 0 <= i < |Changes(hs, labels)| ==> Changes(hs, labels)[i].category in labels
  {
    ChangesKeys(hs, labels);
    forall i | 0 <= i < |Changes(hs, labels)| ensures Changes(hs, labels)[i].category in labels {
      var k := Changes(hs, labels)[i].category;
      assert Keys(Changes(hs, labels))[i] == k;
      FirstOccurrencesSame(RecordedLabels(hs, labels), k);
      RecordedLabelsWhitelisted(hs, labels, k);
    }
  }

  lemma {:induction false} RecordedLabelsWhitelisted(hs: seq<Heading3>, labels: seq<string>, k: string)
    requires k in RecordedLabels(hs, labels)
    ensures k in labels
    decreases |hs|
  {
    var init := hs[..|hs| - 1];
    if k in RecordedLabels(init, labels) {
      RecordedLabelsWhitelisted(init, labels, k);
    }
  }

  /** Heading `h` is recorded under label `k`. */
  predicate RecordedAs(h: Heading3, labels: seq<string>, k: string) {
    Recorded(h, labels) && h.title == k
  }

  /** The index of the last recorded heading with label `k`. */
  function LastRecorded(hs: seq<Heading3>, labels: seq<string>, k: string): (i: Option<nat>)
    ensures i.Some? ==> i.value < |hs| && RecordedAs(hs[i.value], labels, k)
    ensures i.Some? ==> forall j :: i.value < j < |hs| ==> !RecordedAs(hs[j], labels, k)
    ensures i.None? ==> forall j :: 0 <= j < |hs| ==> !RecordedAs(hs[j], labels, k)
    decreases |hs|
  {
    if hs == [] then None
    else if RecordedAs(hs[|hs| - 1], labels, k) then Some(|hs| - 1)
    else
      var init := hs[..|hs| - 1];
      var r := LastRecorded(init, labels, k);
      assert forall j :: 0 <= j < |init| ==> init[j] == hs[j];
      r
  }

  /** A label maps to the converted items of the list under its last heading:
      a repeated heading replaces the earlier list rather than adding to it. */
  lemma {:induction false} ChangesLookup(hs: seq<Heading3>, labels: seq<string>, k: string)
    ensures Lookup(Changes(hs, labels), k)
      == match LastRecorded(hs, labels, k)
         case None => None
         case Some(i) => Some(Items(hs[i].list.value))
    decreases |hs|
  {
    if hs != [] {
      var init := hs[..|hs| - 1];
      var h := hs[|hs| - 1];
      ChangesLookup(init, labels, k);
      var d := Changes(init, labels);
      if Recorded(h, labels) {
        var v := Items(h.list.value);
        assert Changes(hs, labels) == Put(d, h.title, v);
        PutLookup(d, h.title, v, k);
      } else {
        assert Changes(hs, labels) == d;
      }
      var m := LastRecorded(init, labels, k);
      if m.Some? {
        assert hs[m.value] == init[m.value];
      }
    }
  }

  /** A heading outside the whitelist, Highlights among them, is ignored. */
  lemma UnlistedIgnored(hs: seq<Heading3>, labels: seq<string>, h: Heading3)
    requires h.title !in labels
    ensures Changes(hs + [h], labels) == Changes(hs, labels)
  {
    assert (hs + [h])[..|hs|] == hs;
  }

  /** The Highlights heading, which the release-notes parser does recognise,
      is ignored on a release page. */
  lemma HighlightsIgnored(hs: seq<Heading3>, list: Option<seq<seq<Node>>>)
    ensures Changes(hs + [Heading3(Highlights, list)], PageLabels) == Changes(hs, PageLabels)
  {
    HighlightsNotRecorded();
    UnlistedIgnored(hs, PageLabels, Heading3(Highlights, list));
  }

  /** A repeated heading keeps the number of keys and their order. */
  lemma RepeatedOverwrites(hs: seq<Heading3>, labels: seq<string>, h: Heading3)
    requires Recorded(h, labels) && Lookup(Changes(hs, labels), h.title).Some?
    ensures Keys(Changes(hs + [h], labels)) == Keys(Changes(hs, labels))
    ensures Lookup(Changes(hs + [h], labels), h.title) == Some(Items(h.list.value))
  {
    assert (hs + [h])[..|hs|] == hs;
    ChangesKeys(hs, labels);
    LookupKeys(Changes(hs, labels), h.title);
    PutKeys(Changes(hs, labels), h.title, Items(h.list.value));
    PutLookup(Changes(hs, labels), h.title, Items(h.list.value), h.title);
  }

  // ---------------------------------------------------------------------------
  // The releases page: the loop at agent.py:23-32 over the release links

  /** What following a release link gives: the anchor has no `href`, so the
      URL cannot be built (`KeyError`); the page cannot be fetched; the page
      has no version `h1`, so `parse_html` returns `None` and unpacking it
      fails (`TypeError`); the page has no "What's Changed" heading, so its
      changes are `None`; or the `h3` headings after that heading. */
  datatype Followed = MissingHref | Unfetched | NoVersion | NoChangesHeading | Page(headings: seq<Heading3>)

  /** A `Link--primary` anchor of the releases page: its text and what
      following it gives. */
  datatype ReleaseLink = ReleaseLink(text: string, followed: Followed)

  /** An element of `all_changes`. */
  datatype PageRelease = PageRelease(version: string, changes: seq<Section>)

  datatype ScrapeError = KeyError | TypeError

  /** How `parse_html` on the releases page ends. */
  datatype Scrape = Scraped(releases: seq<PageRelease>) | Failed(error: ScrapeError)

  /** The changes the recursive call finds on a release page. */
  function PageChanges(headings: seq<Heading3>): seq<Section> {
    Changes(StripTitles(headings), PageLabels)
  }

  /** The link is followed and following it raises. */
  predicate Raises(l: ReleaseLink) {
    IsReleaseLink(l.text) && (l.followed.MissingHref? || l.followed.NoVersion?)
  }

  /** The link is followed and its page has changes: it gives a release. */
  predicate Yields(l: ReleaseLink) {
    IsReleaseLink(l.text) && l.followed.Page? && PageChanges(l.followed.headings) != []
  }

  /** The release a followed link gives. */
  function ReleaseOf(l: ReleaseLink): PageRelease {
    PageRelease(Strip(l.text), if l.followed.Page? then PageChanges(l.followed.headings) else [])
  }

  /** `f` of each element that satisfies `keep`, in order. */
  function KeptBy<T, U>(s: seq<T>, keep: T -> bool, f: T -> U): seq<U>
    decreases |s|
  {
    if s == [] then []
    else KeptBy(s[..|s| - 1], keep, f) + (if keep(s[|s| - 1]) then [f(s[|s| - 1])] else [])
  }

  lemma KeptByNext<T, U>(s: seq<T>, i: nat, keep: T -> bool, f: T -> U)
    requires i < |s|
    ensures KeptBy(s[..i + 1], keep, f) == KeptBy(s[..i], keep, f) + (if keep(s[i]) then [f(s[i])] else [])
  {
    assert s[..i + 1][..i] == s[..i];
  }

  lemma {:induction false} KeptByAppend<T, U>(a: seq<T>, b: seq<T>, keep: T -> bool, f: T -> U)
    ensures KeptBy(a + b, keep, f) == KeptBy(a, keep, f) + KeptBy(b, keep, f)
    decreases |b|
  {
    if b == [] {
      assert a + b == a;
    } else {
      var b0 := b[..|b| - 1];
      assert (a + b)[..|a + b| - 1] == a + b0;
      assert (a + b)[|a + b| - 1] == b[|b| - 1];
      KeptByAppend(a, b0, keep, f);
    }
  }

  lemma {:induction false} KeptByFrom<T, U>(s: seq<T>, k: nat, keep: T -> bool, f: T -> U)
    requires k < |KeptBy(s, keep, f)|
    ensures exists i :: 0 <= i < |s| && keep(s[i]) && KeptBy(s, keep, f)[k] == f(s[i])
    decreases |s|
  {
    var n := |s| - 1;
    var init := s[..n];
    if k < |KeptBy(init, keep, f)| {
      KeptByFrom(init, k, keep, f);
      var i :| 0 <= i < |init| && keep(init[i]) && KeptBy(init, keep, f)[k] == f(init[i]);
      assert s[i] == init[i];
    } else {
      assert keep(s[n]) && KeptBy(s, keep, f)[k] == f(s[n]);
    }
  }

  lemma KeptByComplete<T, U>(s: seq<T>, i: nat, keep: T -> bool, f: T -> U)
    requires i < |s| && keep(s[i])
    ensures f(s[i]) in KeptBy(s, keep, f)
  {
    assert s == s[..i + 1] + s[i + 1..];
    KeptByAppend(s[..i + 1], s[i + 1..], keep, f);
    KeptByNext(s, i, keep, f);
  }

  /** The releases the links give, in link order. */
  function PageKept(links: seq<ReleaseLink>): seq<PageRelease> {
    KeptBy(links, Yields, ReleaseOf)
  }

  /** The position of the first element that satisfies `p`, if any. */
  function FirstWhere<T>(s: seq<T>, p: T -> bool): (i: Option<nat>)
    ensures i.Some? ==> i.value < |s| && p(s[i.value])
    ensures i.Some? ==> forall j :: 0 <= j < i.value ==> !p(s[j])
    ensures i.None? ==> forall j :: 0 <= j < |s| ==> !p(s[j])
    decreases |s|
  {
    if s == [] then None
    else if p(s[0]) then Some(0)
    else match FirstWhere(s[1..], p)
      case None => None
      case Some(k) =>
        assert forall j :: 1 <= j < k + 1 ==> s[j] == s[1..][j - 1];
        Some(k + 1)
  }

  /** The position of the first link whose following raises, if any. */
  function FirstRaise(links: seq<ReleaseLink>): Option<nat> {
    FirstWhere(links, Raises)
  }

  lemma FirstRaiseAt(links: seq<ReleaseLink>, i: nat)
    requires i < |links| && Raises(links[i])
    requires forall j :: 0 <= j < i ==> !Raises(links[j])
    ensures FirstRaise(links) == Some(i)
  {
  }

  lemma NoRaiseExtended(links: seq<ReleaseLink>, i: nat)
    requires i < |links| && !Raises(links[i])
    requires forall j :: 0 <= j < i ==> !Raises(links[j])
    ensures forall j :: 0 <= j < i + 1 ==> !Raises(links[j])
  {
  }

  lemma FirstRaiseNone(links: seq<ReleaseLink>)
    requires forall j :: 0 <= j < |links| ==> !Raises(links[j])
    ensures FirstRaise(links) == None
  {
  }

  /** `parse_html` on the releases page: the error of the first link that
      raises, and otherwise the releases the links give. */
  function ScrapedPage(links: seq<ReleaseLink>): Scrape {
    match FirstRaise(links)
      case Some(i) => Failed(if links[i].followed.MissingHref? then KeyError else TypeError)
      case None => Scraped(PageKept(links))
  }

  /** A link that raises ends the scrape with its error when no link before
      it raises. */
  lemma ScrapeStops(links: seq<ReleaseLink>, i: nat)
    requires i < |links| && Raises(links[i])
    requires forall j :: 0 <= j < i ==> !Raises(links[j])
    ensures ScrapedPage(links) == Failed(if links[i].followed.MissingHref? then KeyError else TypeError)
  {
    FirstRaiseAt(links, i);
  }

  /** When no link raises, the scrape gives the releases the links give. */
  lemma ScrapeRuns(links: seq<ReleaseLink>)
    requires forall j :: 0 <= j < |links| ==> !Raises(links[j])
    ensures ScrapedPage(links) == Scraped(PageKept(links))
  {
    FirstRaiseNone(links);
  }

  /** The loop at agent.py:23-32. */
  method ParseReleasesPage(releases: seq<ReleaseLink>) returns (outcome: Scrape)
    ensures outcome == ScrapedPage(releases)
  {
    var allChanges := [];
    for i := 0 to |releases|
      invariant forall j :: 0 <= j < i ==> !Raises(releases[j])
      invariant allChanges == PageKept(releases[..i])
    {
      var release := releases[i];
      var releaseVersion := Strip(release.text);
      PageKeptNext(releases, i);
      if IsVersionTag(releaseVersion) {
        if release.followed.MissingHref? {
          ScrapeStops(releases, i);
          return Failed(KeyError);
        } else if release.followed.NoVersion? {
          ScrapeStops(releases, i);
          return Failed(TypeError);
        } else if release.followed.Page? {
          var changes := CollectChanges(release.followed.headings);
          if changes != [] {
            allChanges := allChanges + [PageRelease(releaseVersion, changes)];
          }
        }
      }
      NoRaiseExtended(releases, i);
    }
    assert releases[..|releases|] == releases;
    ScrapeRuns(releases);
    return Scraped(allChanges);
  }

  lemma PageKeptNext(links: seq<ReleaseLink>, i: nat)
    requires i < |links|
    ensures PageKept(links[..i + 1]) == PageKept(links[..i]) + (if Yields(links[i]) then [ReleaseOf(links[i])] else [])
  {
    KeptByNext(links, i, Yields, ReleaseOf);
  }

  /** The releases of two runs of links are those of the first run followed by
      those of the second. */
  lemma PageKeptAppend(a: seq<ReleaseLink>, b: seq<ReleaseLink>)
    ensures PageKept(a + b) == PageKept(a) + PageKept(b)
  {
    KeptByAppend(a, b, Yields, ReleaseOf);
  }

  /** `e` is the release some link of `links` gives. */
  predicate GivenBy(links: seq<ReleaseLink>, e: PageRelease) {
    exists i :: 0 <= i < |links| && Yields(links[i]) && e == ReleaseOf(links[i])
  }

  /** Every release kept comes from a followed link whose page has changes,
      with the stripped link text, which is a version tag, as its version. */
  lemma PageKeptOrigins(links: seq<ReleaseLink>)
    ensures forall k :: 0 <= k < |PageKept(links)| ==> GivenBy(links, PageKept(links)[k])
    ensures forall k :: 0 <= k < |PageKept(links)| ==>
      IsVersionTag(PageKept(links)[k].version) && PageKept(links)[k].changes != []
  {
    forall k | 0 <= k < |PageKept(links)|
      ensures GivenBy(links, PageKept(links)[k])
      ensures IsVersionTag(PageKept(links)[k].version) && PageKept(links)[k].changes != []
    {
      KeptByFrom(links, k, Yields, ReleaseOf);
      var i :| 0 <= i < |links| && Yields(links[i]) && PageKept(links)[k] == ReleaseOf(links[i]);
      assert PageKept(links)[k].version == Strip(links[i].text);
    }
  }

  /** Every followed link whose page has changes gives its release. */
  lemma PageKeptComplete(links: seq<ReleaseLink>, i: nat)
    requires i < |links| && Yields(links[i])
    ensures ReleaseOf(links[i]) in PageKept(links)
  {
    KeptByComplete(links, i, Yields, ReleaseOf);
  }

  /** The scrape fails exactly when some followed link raises, and then with
      that link's error. */
  lemma ScrapeFails(links: seq<ReleaseLink>)
    ensures ScrapedPage(links).Failed? <==> exists j :: 0 <= j < |links| && Raises(links[j])
    ensures ScrapedPage(links) == Failed(KeyError) ==>
      exists j :: 0 <= j < |links| && IsReleaseLink(links[j].text) && links[j].followed.MissingHref?
  {
    match FirstRaise(links)
      case None =>
      case Some(i) =>
  }

  /** A linked page without changes, unreachable or without a "What's Changed"
      heading contributes nothing. */
  lemma PageSkips(links: seq<ReleaseLink>, l: ReleaseLink)
    requires !Yields(l)
    ensures PageKept(links + [l]) == PageKept(links)
  {
    KeptByNext(links + [l], |links|, Yields, ReleaseOf);
    assert (links + [l])[..|links|] == links;
    assert (links + [l])[..|links| + 1] == links + [l];
  }
}
