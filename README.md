# nginx/agent changelog scripts, modelled in Dafny

Three Python scripts build the changelog of the nginx agent from its GitHub
releases:

- `source/agent.py` reads published releases through the REST API. It keeps
  at most ten releases whose tag is `v` followed by three dot-separated digit
  groups. For each one it parses the release notes into labelled sections and
  rewrites `@user` mentions and pull-request URLs as Markdown links.
- `source/agent2.py` does the same for the draft releases of another
  repository. It has no cap and no tag format, and its link rewriting differs:
  a fold of global `str.replace` calls over the names found by `findall`, then
  a rewrite of the first pull-request URL only.
- `agent.py` scrapes the HTML releases page instead. It checks each release
  link's text against `v\d+(\.\d+)*`, and collects the list items under a
  whitelist of `h3` headings, rendering each item's child nodes as Markdown.

All three then tidy the generated file with the same two line passes,
`remove_extra_blank_lines` and `remove_extra_lines`.

The model is over strings (`seq<char>`) and sequences. Python semantics are
written out where they matter:

- `str.isspace`, `strip`, `splitlines` (the full set of line boundaries), and
  `str.replace`, including an empty pattern;
- regular-expression `findall`, `search` and `sub` for the patterns used, with
  Python's `.` (any character but `\n`) and `$` (which also matches before a
  final `\n`);
- dictionary assignment, where a key that is already present keeps its
  position.

Modules:

- `Text`: the string built-ins.
- `Patterns`: character classes, the pull-request URL matcher and the dotted
  version scanner.
- `ReleaseNotes`: `parse_release_notes`, the same in both API scripts. It is
  given the link converter as a parameter.
- `Releases`: release records and the selection loop shared by both API
  scripts.
- `SourceAgent`: `source/agent.py`.
- `DraftAgent`: `source/agent2.py`.
- `PageAgent`: `agent.py`.
- `LineCleanup`: the two line passes.

Each loop of the scripts outside the I/O and the HTML navigation is a Dafny
method. Each method is proved equal to a specification function, and the
properties are lemmas about that function.

## Model

| member | source | states |
|---|---|---|
| Text.Strip | source/agent.py:59 | the result is a contiguous slice of the input, everything before and after it is whitespace, and its first and last characters are not whitespace |
| Text.StripUnique | source/agent.py:59 | stripping text that is whitespace, then a core with non-space ends, then whitespace, gives exactly that core |
| Text.StripIdempotent | agent.py:68 | stripping twice is stripping once |
| Text.BlankIffStripped | agent.py:77 | a line is blank (`strip()` is empty) exactly when every character is whitespace |
| Text.TrimLeft | source/agent.py:60 | the bullet regex's `\s*` drops exactly the leading whitespace: the rest is a suffix that starts with a non-space |
| Text.TrimRight | source/agent.py:59 | the right half of `strip`: the result is a prefix and what is dropped is all whitespace |
| Text.Replace | source/agent2.py:68 | defines `str.replace`: every non-overlapping occurrence, scanned from the left, becomes the replacement, which is not scanned again; an empty pattern inserts it before every character and at the end |
| Text.ContainsAt | agent.py:91 | the substring check `in` holds exactly when the pattern occurs at some index |
| Text.ReplaceAbsent | source/agent2.py:68 | `str.replace` leaves text without an occurrence of the pattern unchanged |
| Text.ReplaceSkip | source/agent2.py:68 | a prefix that does not contain the pattern's first character is copied through `str.replace` |
| Text.ReplaceFront | source/agent2.py:68 | an occurrence at the front is replaced and the scan resumes after it |
| Text.ReplaceGrows | source/agent2.py:75 | with a longer replacement the text never shrinks, and it grows exactly when the pattern occurs |
| Text.SplitLines | source/agent.py:59 | no element of `splitlines` holds a line boundary, and the list is empty exactly for empty text |
| Text.SplitLinesFront | source/agent.py:59 | a line ended by `\n` or `\r\n` is the first element, and splitting continues after it |
| Patterns.Span | source/agent.py:67 | a maximal run: every character counted is in the class and the next one is not |
| Patterns.PrUrlAt | source/agent.py:70 | a URL match at the front is `https://github`, one character other than `\n`, `com/`, owner, `/`, repo, `/pull/` and digits, with the digit run maximal |
| Patterns.PrUrlAtFront | source/agent.py:70 | the matcher finds every such URL, with its owner, repository and number |
| Patterns.NoUrlAt | source/agent.py:70 | no URL starts at a character other than `h` |
| Patterns.DottedGroupsSplit | source/agent.py:26 | the version scanner counts the dot-separated pieces exactly when all pieces are non-empty digit runs, and fails otherwise |
| ReleaseNotes.LabelsWellFormed | source/agent.py:47 | the six labels are non-empty, hold no `#`, and start with pairwise different emoji |
| ReleaseNotes.LabelAtUnique | source/agent.py:51-52 | a heading `### ` plus a label is recognised as that label and no other |
| ReleaseNotes.BulletRun | source/agent.py:51 | the bullet part is a maximal run of lines that start with `*`, ending at the end of text or after a `\n` that is not followed by `*` |
| ReleaseNotes.BulletRunWhole | source/agent.py:51 | any block of bullet lines that ends there is exactly the run found |
| ReleaseNotes.MatchAt | source/agent.py:51-52 | the pattern tried at one position: a configured heading, a line break and a bullet block; a match carries a configured label and consumes at least one character |
| ReleaseNotes.MatchAtSound | source/agent.py:51 | a match is the heading, `\n` or `\r\n`, and a bullet block that is followed by a non-bullet line or the end |
| ReleaseNotes.MatchAtFront | source/agent.py:51 | conversely, every heading followed by a newline and a bullet block is matched, with that block as its content |
| ReleaseNotes.FindAll | source/agent.py:54 | every match found carries one of the configured labels |
| ReleaseNotes.FindAllNone | source/agent.py:54 | `findall` returns nothing exactly when no position starts a match |
| ReleaseNotes.FindAllSkip | source/agent.py:54 | text without `#` contributes no match |
| ReleaseNotes.FindAllFront | source/agent.py:54 | a match at the front comes first, and the scan resumes right after its content |
| ReleaseNotes.HeadingCategory | source/agent.py:58 | deleting `### ` from a matched heading gives back its label |
| ReleaseNotes.StripBullet | source/agent.py:60 | the bullet substitution removes one leading `*` and the whitespace after it, and changes nothing else |
| ReleaseNotes.BulletEntry | source/agent.py:59-60 | an entry is its bullet line stripped, without the `*` and following whitespace, then converted |
| ReleaseNotes.EntriesOf | source/agent.py:60 | one entry per line of the content, in order |
| ReleaseNotes.CollectEntries | source/agent.py:49-60 | the loop leaves every label mapped to the entries of its matches, in match order |
| ReleaseNotes.CollectedConcat | source/agent.py:56-60 | the entries of a label over two runs of matches are the first run's entries followed by the second's: a repeated heading appends |
| ReleaseNotes.CollectedFront | source/agent.py:54-60 | a heading at the front puts its entries before those of all later matches, and only under its own label |
| ReleaseNotes.NonEmptyItems | source/agent.py:62 | the filter yields, in label order, the labels with entries |
| ReleaseNotes.Parsed | source/agent.py:46-64 | defines the parse: for each label, in label order, the entries of all its matches, keeping only labels with entries |
| ReleaseNotes.ParseReleaseNotes | source/agent.py:46-64 | the parse equals the specification `Parsed` |
| ReleaseNotes.SectionsShape | source/agent.py:62 | every section has a configured label and non-empty entries, exactly those collected for it, and every label with entries has a section |
| ReleaseNotes.ParsedKeys | source/agent.py:49-62 | the same for the parse of any release notes |
| ReleaseNotes.SectionsOrdered | source/agent.py:47-49 | sections follow the order of the label list, whatever the order of the headings in the text |
| ReleaseNotes.ParsedOrdered | source/agent.py:62 | the parse lists its sections in the configured label order |
| ReleaseNotes.ParsedNoMatch | source/agent.py:54-64 | notes without a recognised heading give the empty mapping |
| ReleaseNotes.ParsedEmpty | source/agent.py:54-64 | empty notes give the empty mapping |
| Releases.Kept | source/agent.py:21-35 | defines the selection: the entries, in listing order, of the releases the selection predicate admits |
| Releases.KeptNext | source/agent.py:21-35 | one more release is appended to the selection or skipped |
| Releases.KeptPrefix | source/agent.py:21-35 | the selection from a prefix of the releases is a prefix of the whole selection |
| Releases.KeptSkips | source/agent.py:28-29 | a rejected release, such as one with an empty or missing body, contributes nothing |
| Releases.KeptOrigins | source/agent.py:30-35 | every kept entry is built from an accepted input release with that tag and its parsed body |
| Releases.KeptIndicesIncrease | source/agent.py:21 | the kept releases come from strictly increasing input positions: a subsequence in input order |
| Releases.KeptComplete | source/agent2.py:23-33 | every accepted release is kept |
| Releases.Take | source/agent.py:20-23 | the cap keeps a prefix of at most `n` entries, and all of them when there are fewer |
| Releases.NonEmpty | source/agent.py:32-34 | the copy keeps only sections with entries |
| Releases.CopyNonEmpty | source/agent.py:30-34 | the copy loop equals the filter `NonEmpty` |
| Releases.ParsedCopied | source/agent.py:30-34 | copying a parsed changelog changes nothing, since it has no empty section |
| Releases.EntryOf | source/agent.py:29-35 | the entry of a release is its tag, verbatim, with its parsed notes |
| SourceAgent.MentionAt | source/agent.py:67 | a mention at the front is `@` and a maximal run of ASCII letters, digits and hyphens, followed by the end or a character outside the class; one is found exactly when `@` is followed by such a character |
| SourceAgent.SubMentions | source/agent.py:67 | defines the first `re.sub`: each mention, scanned from the left, becomes its link and the scan resumes after the name; the text never shrinks |
| SourceAgent.SubMentionsFront | source/agent.py:67 | a mention at the front becomes `[@name](https://github.com/name)`, and substitution resumes after it |
| SourceAgent.SubMentionsBareAt | source/agent.py:67 | an `@` without a name is copied |
| SourceAgent.SubMentionsSkip | source/agent.py:67 | text without `@` is copied through the substitution |
| SourceAgent.SubMentionsChanges | source/agent.py:67 | the mention pass lengthens the text when there is a mention, and is the identity when there is none |
| SourceAgent.LinkPrs | source/agent.py:69-73 | defines the second `re.sub`: each URL, scanned from the left, becomes `[#N](url)` and the scan resumes after it; the text never shrinks |
| SourceAgent.LinkPrsFront | source/agent.py:69-73 | a URL at the front becomes `[#N](url)`, and substitution resumes after it |
| SourceAgent.LinkPrsSkip | source/agent.py:69-73 | text without `h` is copied through the URL pass |
| SourceAgent.LinkPrsChanges | source/agent.py:69-73 | the URL pass lengthens the text when it holds a URL, and is the identity otherwise |
| SourceAgent.ConvertLinks | source/agent.py:66-75 | defines `convert_links`: the mention pass, then the URL pass |
| SourceAgent.ConvertLinksUnchanged | source/agent.py:66-75 | an entry is returned unchanged exactly when it has no mention and no pull-request URL |
| SourceAgent.MentionLinkNoUrl | source/agent.py:67-73 | the link made for a name holds no pull-request URL: its only `:` starts `://github.com/`, and the name after that is followed by `)`, not `/` |
| SourceAgent.ConvertedMention | source/agent.py:66-75 | a lone mention `@name` converts to exactly `[@name](https://github.com/name)` |
| SourceAgent.ConvertLinksNotIdempotent | source/agent.py:67 | converting twice differs from converting once: the `@name` inside a link is linked again |
| SourceAgent.IsReleaseTag | source/agent.py:26-27 | defines the tag check: `v`, then exactly three dot-separated digit groups, with `$` also matching before one final newline |
| SourceAgent.ReleaseTagSplit | source/agent.py:26-27 | a tag is accepted exactly when, after `v`, it splits at dots into three non-empty digit runs, possibly followed by one final newline |
| SourceAgent.ReleaseTagAccepts | source/agent.py:26-27 | `va.b.c` with digit groups passes, and so does the same with a trailing newline |
| SourceAgent.ReleaseTagRejectsTwo | source/agent.py:26-27 | two groups fail |
| SourceAgent.ReleaseTagRejectsSuffix | source/agent.py:26-27 | a suffix such as `-rc1` after the three groups fails |
| SourceAgent.NotTag | source/agent.py:26-27 | a body that does not scan as three groups fails |
| SourceAgent.Selected | source/agent.py:25-29 | defines which releases enter: a valid tag and a body that is present and non-empty |
| SourceAgent.ChangesFromReleases | source/agent.py:18-37 | the loop returns the first ten entries of the selection of releases with a valid tag and a non-empty body, and never more than ten |
| SourceAgent.SelectedTags | source/agent.py:25-35 | every kept version is a valid tag, taken verbatim from an input release whose body is non-empty |
| DraftAgent.WordMentionAt | source/agent2.py:65 | a `@\w+` token at the front is `@` and a maximal run of word characters, followed by the end or a non-word character; one is found exactly when `@` is followed by a word character |
| DraftAgent.Usernames | source/agent2.py:65 | every name `findall` lists is a run of word characters |
| DraftAgent.UsernamesFront | source/agent2.py:65 | a token at the front contributes its maximal name first |
| DraftAgent.UsernamesSkip | source/agent2.py:65 | text without `@` contributes no name |
| DraftAgent.UsernamesFound | source/agent2.py:65 | names are found exactly when some `@` is followed by a word character, and then `@` plus the first name occurs in the text |
| DraftAgent.Wrapped | source/agent2.py:67-68 | defines the fold: for each listed name, in order, a global `str.replace` of `@name` by its link in the text so far |
| DraftAgent.WrappedGrows | source/agent2.py:67-68 | the fold never shortens the text, and lengthens it when the first name occurs |
| DraftAgent.SingleMention | source/agent2.py:65-68 | with exactly one `@name` and no other `@`, only that token is replaced by its link |
| DraftAgent.HyphenEndsName | source/agent2.py:65 | in `@a-b` only `@a` is linked |
| DraftAgent.WrappedPair | source/agent2.py:67-68 | the fold over two names is two global replacements, in order |
| DraftAgent.DoubleWrap | source/agent2.py:67-68 | a name mentioned twice is listed twice, and the second replacement wraps both links again |
| DraftAgent.PrefixClobber | source/agent2.py:67-68 | for `@al @alice` the replacement of `@al` also rewrites the front of `@alice`, which is then not linked |
| DraftAgent.ConvertedNotIdempotent | source/agent2.py:64-77 | a lone mention of letters and digits converts to its link, and converting that link changes it again |
| DraftAgent.FirstMatch | source/agent2.py:70 | the first match from a position on, with no match before it, or none at all |
| DraftAgent.Search | source/agent2.py:70 | `re.search` returns a match at a position before which no URL starts |
| DraftAgent.SearchFinds | source/agent2.py:70 | the search succeeds exactly when a URL starts somewhere |
| DraftAgent.SearchAt | source/agent2.py:70 | the search returns the first position with a match |
| DraftAgent.FoundInText | source/agent2.py:74 | the matched text is non-empty, occurs in the entry and is shorter than its label |
| DraftAgent.LinkFirstPr | source/agent2.py:70-75 | defines the URL step: the first URL found is located, and every occurrence of its text becomes `[repo#N](url)` |
| DraftAgent.LinkFirstPrChanges | source/agent2.py:70-75 | the URL rewrite never shortens the text, and is the identity exactly when there is no URL |
| DraftAgent.FirstPrOnly | source/agent2.py:70-75 | the first URL becomes `[repo#N](url)`, and text after it that does not hold that URL, even with other URLs, is untouched |
| DraftAgent.Converted | source/agent2.py:64-77 | defines `convert_links`: the fold over the names `findall` lists, then the URL step |
| DraftAgent.ConvertLinks | source/agent2.py:64-77 | the loop and the search equal the specification `Converted` |
| DraftAgent.ConvertedUnchanged | source/agent2.py:64-77 | an entry is returned unchanged exactly when it has no `@\w` token and no URL |
| DraftAgent.DraftSelected | source/agent2.py:24-27 | defines which releases enter: a non-empty tag and a body that is present and non-empty |
| DraftAgent.DraftReleases | source/agent2.py:21-35 | the loop keeps, in order, the entry of every release with a non-empty tag and a non-empty body |
| DraftAgent.DraftKeepsAll | source/agent2.py:21-35 | there is no cap: when every release qualifies, every one has an entry |
| PageAgent.IsVersionTag | agent.py:25 | defines the version check: `v`, then dot-separated digit groups, with `$` also matching before one final newline |
| PageAgent.IsReleaseLink | agent.py:24-25 | defines the link check: the version check on the stripped link text |
| PageAgent.ReleaseLinkSplit | agent.py:24-25 | a stripped link text passes exactly when it is `v` and dot-separated pieces that are all non-empty digit runs |
| PageAgent.VersionAcceptsOne | agent.py:25 | `v1` passes |
| PageAgent.VersionAcceptsDotted | agent.py:25 | a further group in front passes, so `v1.2.3` passes |
| PageAgent.VersionRejectsNoPrefix | agent.py:25 | `1.2.3` fails |
| PageAgent.VersionRejectsTrailingDot | agent.py:25 | `v1.` fails |
| PageAgent.VersionRejectsBare | agent.py:25 | `v` fails |
| PageAgent.Rendered | agent.py:59-67 | defines the accumulated text: the rendering of each child node, in order |
| PageAgent.Entry | agent.py:57-68 | defines the item text: the accumulated text, stripped |
| PageAgent.ConvertLinks | agent.py:57-68 | the loop over the child nodes returns the stripped rendering `Entry` |
| PageAgent.RenderedAppend | agent.py:60-67 | rendering works node by node |
| PageAgent.RenderedLink | agent.py:61-65 | a link with an href and text is rendered as `[text](href)` between its neighbours |
| PageAgent.RenderedBrokenLink | agent.py:64 | a link without an href or without text contributes nothing |
| PageAgent.RenderedOther | agent.py:66-67 | any other node is copied verbatim |
| PageAgent.ConvertedStrip | agent.py:68 | only surrounding whitespace is removed from the rendering |
| PageAgent.ConvertedLinkOnly | agent.py:57-68 | an item that is just a link converts to that link |
| PageAgent.HighlightsNotRecorded | agent.py:48 | the Highlights label is not on the whitelist |
| PageAgent.ConvertAll | agent.py:51 | the item list equals the converted items in order |
| PageAgent.PutKeys | agent.py:51 | assignment keeps a present key's place and appends a new key, and keys stay distinct |
| PageAgent.PutLookup | agent.py:51 | after assignment the key maps to the new value and every other key keeps its value |
| PageAgent.LookupKeys | agent.py:51 | a key has a value exactly when it is a key |
| PageAgent.Changes | agent.py:45-51 | defines the dictionary: headings in order, each recorded one assigning its converted items to its label |
| PageAgent.CollectChanges | agent.py:45-51 | the loop over the headings equals the specification `Changes` over the stripped titles and the five labels |
| PageAgent.ChangesKeys | agent.py:48-51 | the keys are the recorded labels, each once, in order of their first heading |
| PageAgent.ChangesWhitelisted | agent.py:48 | every key is a whitelisted label |
| PageAgent.LastRecorded | agent.py:46-51 | the last recorded heading with a label, and no later one |
| PageAgent.ChangesLookup | agent.py:48-51 | a label maps to the converted items under its last heading, and is absent when no heading recorded it |
| PageAgent.UnlistedIgnored | agent.py:48 | a heading off the whitelist changes nothing |
| PageAgent.HighlightsIgnored | agent.py:48 | the Highlights heading is ignored |
| PageAgent.RepeatedOverwrites | agent.py:51 | a repeated heading keeps the keys and their order, and replaces the earlier list |
| PageAgent.PageChanges | agent.py:30 | defines the changes of a release page: the dictionary of its whitelisted headings |
| PageAgent.PageKept | agent.py:23-32 | defines the releases kept: in link order, each followed link whose page has a non-empty dictionary, with the stripped link text as version |
| PageAgent.FirstWhere | agent.py:23-30 | the first position satisfying a condition, with none before it, or none at all |
| PageAgent.ScrapedPage | agent.py:23-33 | defines the outcome: the error of the first followed link without `href` (`KeyError`) or without a version heading (`TypeError`), otherwise the releases kept |
| PageAgent.ParseReleasesPage | agent.py:23-33 | the loop over the release links equals the specification `ScrapedPage` |
| PageAgent.ScrapeStops | agent.py:27-30 | a link that raises, with none raising before it, ends the scrape with its error |
| PageAgent.ScrapeRuns | agent.py:23-33 | when no link raises, the scrape returns the releases kept |
| PageAgent.ScrapeFails | agent.py:27-30 | the scrape fails exactly when some followed link raises, and a `KeyError` comes from a followed link without `href` |
| PageAgent.PageKeptAppend | agent.py:23-32 | the releases of two runs of links are those of the first run followed by those of the second |
| PageAgent.PageKeptOrigins | agent.py:24-32 | every kept release comes from a followed link whose page has changes; its version passes the version check and its changes are non-empty |
| PageAgent.PageKeptComplete | agent.py:29-32 | every followed link whose page has changes has its release kept |
| PageAgent.PageSkips | agent.py:29-31 | a link not followed, whose page cannot be fetched, lacks a "What's Changed" heading or has no changes, contributes nothing |
| LineCleanup.Collapsed | agent.py:74-83 | defines the kept lines: in order, every line that is not blank or does not follow a blank line |
| LineCleanup.RemoveExtraBlankLines | agent.py:70-85 | the loop with its flag equals the specification `Collapsed` |
| LineCleanup.CollapsedEnds | agent.py:76-83 | the first line survives, and the last survives when it is kept |
| LineCleanup.CollapsedLast | agent.py:76-83 | the output ends with a blank line exactly when the input does |
| LineCleanup.CollapsedNoBlankPair | agent.py:76-83 | the output never has two blank lines in a row |
| LineCleanup.CollapsedKeepsText | agent.py:76-83 | the non-blank lines are all kept, in order |
| LineCleanup.CollapsedUnchanged | agent.py:76-83 | input without two blank lines in a row is returned as it is |
| LineCleanup.CollapsedIdempotent | agent.py:76-83 | applying the pass twice is applying it once |
| LineCleanup.CollapsedFirstOfRun | agent.py:77-80 | of a run of blank lines the first is kept: dropping the second of two changes nothing |
| LineCleanup.DropRule | agent.py:91-92 | a second-to-last line holding `---` is deleted and the rest is kept, and nothing changes otherwise |
| LineCleanup.DropRuleSecondToLast | agent.py:91-92 | a rule line in second-to-last position is removed |
| LineCleanup.CutTrailing | agent.py:93-94 | the result is a prefix, non-empty for non-empty input; every line cut is blank; the loop's condition fails on the result (at most one line, or one of the last two is not blank); and when anything was cut the last line kept is blank, so the cut stops at the first line where the condition fails |
| LineCleanup.CutTrailingContent | agent.py:93-94 | content ending in a non-blank line, followed by one or more `"\n"` lines, is cut to the content and one `"\n"` |
| LineCleanup.CutTrailingSingle | agent.py:93-94 | the cut leaves one line exactly when the input is one line or all blank |
| LineCleanup.Finish | agent.py:93-97 | defines the pass after the rule deletion: trailing blank lines cut, the last line popped, `"\n"` added unless the new last line is blank, and `IndexError` when a list is empty |
| LineCleanup.FinishContent | agent.py:93-97 | after the rule deletion, content ending in a non-blank line followed by blank `"\n"` lines is written as the content and one `"\n"` |
| LineCleanup.ExtraLinesRemoved | agent.py:87-97 | defines `remove_extra_lines`: the rule deletion, then `Finish` |
| LineCleanup.ExtraLinesContent | agent.py:87-97 | the usual case: content ending in a non-blank line followed by at least two `"\n"` lines ends as the content and one `"\n"` |
| LineCleanup.RemoveExtraLines | agent.py:87-99 | the pass equals the specification `ExtraLinesRemoved`, including the `IndexError` outcome |
| LineCleanup.ExtraLinesError | agent.py:93-96 | the pass raises `IndexError` exactly when, after the rule deletion, at most one line is left or all lines are blank |
| LineCleanup.ExtraLinesEndBlank | agent.py:95-97 | on success the last line written is blank |
| LineCleanup.ExtraLinesPrefix | agent.py:91-97 | on success the output, apart from an added `"\n"`, is a proper prefix of the list left after the rule deletion |
| LineCleanup.ExtraLinesDropsLast | agent.py:95-97 | a non-blank last line is popped all the same, and `"\n"` follows unless the line before it is blank |

The line passes also appear, identically, at source/agent.py:77-106 and
source/agent2.py:79-108. The parse appears at source/agent2.py:44-62, the
same as at source/agent.py:46-64.

Behaviours worth knowing, all proved above:

- Neither API script's link converter is idempotent
  (`SourceAgent.ConvertLinksNotIdempotent`, `DraftAgent.ConvertedNotIdempotent`).
- In `source/agent2.py` a name mentioned twice is wrapped twice
  (`DraftAgent.DoubleWrap`).
- In `source/agent2.py` other URLs stay untouched only when they do not
  contain the first URL's text (`DraftAgent.FirstPrOnly`).
- The comment at agent.py:95 calls the popped line "a blank line", but the
  line is popped even when it is not blank (`LineCleanup.ExtraLinesDropsLast`).
- The comment at agent.py:92 speaks of the third-to-last line, but the code
  deletes the second to last (`LineCleanup.DropRule`).

## Left out

- HTTP fetching, the `GITHUB_TOKEN` lookup, status-code handling and JSON
  decoding (source/agent.py:7-17,39-43; source/agent2.py:8-20,37-41;
  agent.py:7-14). They are I/O. The selection loops take the decoded release
  list as a sequence of `(tag, body)` records, with a missing body as `None`.
- The error messages printed on failure. They are output only.
- BeautifulSoup navigation in agent.py:16-55 is a foreign library, so this
  model takes its results as data. That covers:
  - the `a.Link--primary` lookup and the recursive fetch per release;
  - the `h1` version lookup and the "What's Changed" `h2` lookup;
  - `find_all_next('h3')`, `find_next_sibling('ul')` and `find_all('li')`;
  - `str()` of an element.

  `PageAgent` therefore works on headings given as a title and an optional
  list of items, and on items given as a sequence of child nodes. A release
  link is given as its text and what following it yields: no `href`, a failed
  fetch, a page without a version `h1`, a page without a "What's Changed"
  heading, or the page's `h3` headings. The version the release page itself
  reports (agent.py:36-39) is discarded by the loop and is not modelled.
- The Jinja2 template rendering, file reading and writing, `argparse`, and
  each script's `main`. They are plumbing. The line passes take and return the
  list of lines, each with its line ending.
- `\w` and `\d` are ASCII only. Python's Unicode word characters and digits
  outside ASCII are not modelled.
- `Releases.KeptAll`: states only that every release is kept when all are
  accepted, as a count. Which releases are kept, and what each entry holds, is
  stated by `Releases.KeptOrigins` and `Releases.KeptComplete`.
- A JSON `tag_name` that is not a string, or a body that is not a string, is
  not modelled. Tags are strings and bodies are optional strings.
