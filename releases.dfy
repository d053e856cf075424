/**
  * What the two release-listing agents share once the listing is fetched: a
  * release record, the entry a kept release contributes, and the sequence of
  * entries a selection rule produces, with its properties.
  */
module Releases {
  import opened Options
  import ReleaseNotes

  /** The fields of one release object of the listing that are read: `tag_name`,
      and `body`, which may be null. */
  datatype Release = Release(tag: string, body: Option<string>)

  /** One element of the result, `{'release_version': ..., 'changes': ...}`. */
  datatype ReleaseEntry = ReleaseEntry(version: string, changes: seq<ReleaseNotes.Section>)

  /** The entry of a kept release: its tag verbatim and the sections of its
      notes, parsed with the agent's link converter. */
  function EntryFor(r: Release, convert: string -> string): ReleaseEntry {
    ReleaseEntry(r.tag, match r.body case Some(b) => ReleaseNotes.Parsed(b, convert) case None => [])
  }

  /** The entries of the releases that `keep` admits, in the order of the listing. */
  function Kept(rs: seq<Release>, keep: Release -> bool, convert: string -> string): seq<ReleaseEntry> {
    if rs == [] then []
    else
      var last := rs[|rs| - 1];
      Kept(rs[..|rs| - 1], keep, convert) + (if keep(last) then [EntryFor(last, convert)] else [])
  }

  /** One more release of the listing adds its entry when it is kept. */
  lemma KeptNext(rs: seq<Release>, i: nat, keep: Release -> bool, convert: string -> string)
    requires i < |rs|
    ensures Kept(rs[..i + 1], keep, convert)
      == Kept(rs[..i], keep, convert) + (if keep(rs[i]) then [EntryFor(rs[i], convert)] else [])
  {
    assert rs[..i + 1][..i] == rs[..i];
    assert rs[..i + 1][i] == rs[i];
  }

  /** The entries of a prefix of the listing are a prefix of all entries: later
      releases cannot change what was collected before them. */
  lemma {:induction false} KeptPrefix(rs: seq<Release>, i: nat, keep: Release -> bool, convert: string -> string)
    requires i <= |rs|
    ensures Kept(rs[..i], keep, convert) <= Kept(rs, keep, convert)
    decreases |rs| - i
  {
    if i < |rs| {
      KeptPrefix(rs, i + 1, keep, convert);
      KeptNext(rs, i, keep, convert);
    } else {
      assert rs[..i] == rs;
    }
  }

  /** A release that is not kept adds nothing. */
  lemma KeptSkips(rs: seq<Release>, r: Release, keep: Release -> bool, convert: string -> string)
    requires !keep(r)
    ensures Kept(rs + [r], keep, convert) == Kept(rs, keep, convert)
  {
    assert (rs + [r])[..|rs|] == rs;
  }

  /** When every release is kept, each one has an entry. */
  lemma {:induction false} KeptAll(rs: seq<Release>, keep: Release -> bool, convert: string -> string)
    requires forall i :: 0 <= i < |rs| ==> keep(rs[i])
    ensures |Kept(rs, keep, convert)| == |rs|
    decreases |rs|
  {
    if rs != [] {
      var init := rs[..|rs| - 1];
      forall i | 0 <= i < |init| ensures keep(init[i]) {
        assert init[i] == rs[i];
      }
      KeptAll(init, keep, convert);
      assert keep(rs[|rs| - 1]);
    }
  }

  /** Where each entry comes from: the index of the release it was made from. */
  function KeptIndices(rs: seq<Release>, keep: Release -> bool): seq<nat> {
    if rs == [] then []
    else KeptIndices(rs[..|rs| - 1], keep) + (if keep(rs[|rs| - 1]) then [|rs| - 1] else [])
  }

  /** Entry `e` is the one made from release `i` of `rs`, which is kept. */
  predicate MadeFrom(rs: seq<Release>, e: ReleaseEntry, i: int, keep: Release -> bool, convert: string -> string) {
    0 <= i < |rs| && keep(rs[i]) && e == EntryFor(rs[i], convert)
  }

  /** Entry `k` is made from the kept release `KeptIndices(rs, keep)[k]`, whose
      tag it carries verbatim. */
  lemma {:induction false} KeptOrigins(rs: seq<Release>, keep: Release -> bool, convert: string -> string)
    ensures |KeptIndices(rs, keep)| == |Kept(rs, keep, convert)|
    ensures forall k :: 0 <= k < |Kept(rs, keep, convert)| ==>
      MadeFrom(rs, Kept(rs, keep, convert)[k], KeptIndices(rs, keep)[k], keep, convert)
    decreases |rs|
  {
    if rs != [] {
      var init := rs[..|rs| - 1];
      KeptOrigins(init, keep, convert);
      forall k | 0 <= k < |Kept(rs, keep, convert)|
        ensures MadeFrom(rs, Kept(rs, keep, convert)[k], KeptIndices(rs, keep)[k], keep, convert)
      {
        if k < |Kept(init, keep, convert)| {
          assert Kept(rs, keep, convert)[k] == Kept(init, keep, convert)[k];
          assert KeptIndices(rs, keep)[k] == KeptIndices(init, keep)[k];
          assert MadeFrom(init, Kept(init, keep, convert)[k], KeptIndices(init, keep)[k], keep, convert);
        }
      }
    }
  }

  /** The indices increase: the entries keep the order of the listing and use
      each release at most once, so they are a subsequence of it. */
  lemma {:induction false} KeptIndicesIncrease(rs: seq<Release>, keep: Release -> bool)
    ensures forall i :: 0 <= i < |KeptIndices(rs, keep)| ==> KeptIndices(rs, keep)[i] < |rs|
    ensures forall k, l :: 0 <= k < l < |KeptIndices(rs, keep)| ==> KeptIndices(rs, keep)[k] < KeptIndices(rs, keep)[l]
    decreases |rs|
  {
    if rs != [] {
      KeptIndicesIncrease(rs[..|rs| - 1], keep);
    }
  }

  /** Every kept release has its entry. */
  lemma {:induction false} KeptComplete(rs: seq<Release>, i: nat, keep: Release -> bool)
    requires i < |rs| && keep(rs[i])
    ensures i in KeptIndices(rs, keep)
    decreases |rs|
  {
    var init := rs[..|rs| - 1];
    if i < |init| {
      assert init[i] == rs[i];
      KeptComplete(init, i, keep);
    }
  }

  /** The first `n` elements of `s`, or all of them. */
  function Take<T>(s: seq<T>, n: nat): (r: seq<T>)
    ensures |r| <= n && r <= s
    ensures |r| == n || r == s
  {
    if |s| <= n then s else s[..n]
  }

  // ---------------------------------------------------------------------------
  // The copy of the parsed sections (lines 30-32 and 32-34 of the two agents)

  /** The copy of the parsed dictionary: the sections with entries. */
  function NonEmpty(items: seq<ReleaseNotes.Section>): (r: seq<ReleaseNotes.Section>)
    ensures |r| <= |items|
    ensures forall i :: 0 <= i < |r| ==> r[i].entries != []
  {
    if items == [] then []
    else NonEmpty(items[..|items| - 1]) + (if items[|items| - 1].entries != [] then [items[|items| - 1]] else [])
  }

  /** Copying the non-empty sections of a list without empty ones copies all of it. */
  lemma {:induction false} NonEmptyAll(items: seq<ReleaseNotes.Section>)
    requires forall i :: 0 <= i < |items| ==> items[i].entries != []
    ensures NonEmpty(items) == items
    decreases |items|
  {
    if items != [] {
      var init := items[..|items| - 1];
      forall i | 0 <= i < |init| ensures init[i].entries != [] {
        assert init[i] == items[i];
      }
      NonEmptyAll(init);
      assert items == init + [items[|items| - 1]];
    }
  }

  /** The copy loop, which keeps the sections with entries. */
  method CopyNonEmpty(changelog: seq<ReleaseNotes.Section>) returns (changes: seq<ReleaseNotes.Section>)
    ensures changes == NonEmpty(changelog)
  {
    changes := [];
    for i := 0 to |changelog|
      invariant changes == NonEmpty(changelog[..i])
    {
      assert changelog[..i + 1][..i] == changelog[..i];
      if changelog[i].entries != [] {
        changes := changes + [changelog[i]];
      }
    }
    assert changelog[..|changelog|] == changelog;
  }

  /** The parse result has no empty section, so the copy keeps all of it. */
  lemma ParsedCopied(notes: string, convert: string -> string)
    ensures NonEmpty(ReleaseNotes.Parsed(notes, convert)) == ReleaseNotes.Parsed(notes, convert)
  {
    var p := ReleaseNotes.Parsed(notes, convert);
    ReleaseNotes.ParsedKeys(notes, convert);
    assert forall i :: 0 <= i < |p| ==> p[i].entries != [];
    NonEmptyAll(p);
  }

  /** Parsing a kept release's notes and copying the non-empty sections gives
      its entry. */
  method EntryOf(r: Release, convert: string -> string) returns (e: ReleaseEntry)
    requires r.body.Some?
    ensures e == EntryFor(r, convert)
  {
    var changelog := ReleaseNotes.ParseReleaseNotes(r.body.value, convert);
    ParsedCopied(r.body.value, convert);
    var changes := CopyNonEmpty(changelog);
    e := ReleaseEntry(r.tag, changes);
  }
}
