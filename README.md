# Flatcar build scripts: pinned-commit diffs, kernel CVE listings and tag pruning

This project models three helper scripts of the Flatcar build tooling and proves
properties of the models.

- **coreos-overlay-diff.py** compares two revisions of the `coreos-overlay`
  repository. It walks the lines of the overlay's `git diff`. A `diff --git`
  header of an ebuild file names a repository; the name is derived from the file
  name and may go through a short alias table. A removed
  `CROS_WORKON_COMMIT="…"` line gives their pinned commit and an added one gives
  ours. Each completed pair starts a comparison of that repository, one level
  deep: the nested comparison does not scan any further. Inconsistent pin lines
  are recorded in a global warning list and skipped. Three conditions abort the
  run: a pin line while no repository is selected, a pin line that is neither
  removed nor added, and a pin line with no quote. No repository is selected
  before the first ebuild header, nor after a completed pin or a removal or
  addition warning until the next header. The module `OverlayDiff` states the scan as a
  function, `Run`, of the lines seen. The class `OverlayDiff.Comparator` holds
  the script's global state and runs the scan as a loop, and that loop is proved
  to agree with `Run`.
- **show-fixed-kernel-cves.py** lists the kernel CVEs fixed between two stable
  versions. It parses versions into three string components, keeps the
  `refs/tags/` lines of `git ls-remote --tags`, and selects the tags strictly
  after `from` and up to `to`. For each selected tag it turns the titles of the
  CVE announcement feed into `[CVE-…](https://nvd.nist.gov/vuln/detail/CVE-…)`
  links. It then joins all the links with `", "`. The module is `KernelCves`.
- **prune-tags.py** deletes old tags from the `origin` remote. It reads the
  `for-each-ref` listing, skips release tags (`v` followed by a digit), and keeps
  the names of the entries whose creation time is before `now - 15 days`. Each
  kept name becomes a `:refs/tags/<name>` refspec, and the refspecs are pushed
  100 at a time. The module is `PruneTags`.

`Text` models the parts of Python's string handling that the scripts use:

- `startswith` and `endswith`;
- substring `in`;
- `split(sep)` and `sep.join`;
- whitespace `split()`;
- integer parsing and rendering.

`Options` holds the `Option` type.

## Model

| member | source | states |
|---|---|---|
| OverlayDiff.Comparator.ScanLine | coreos-overlay-diff.py:77-128 | one diff line, processed by the loop body's branches, leaves the variables, the fatal condition, the appended warnings and the appended nested comparisons exactly as the reference `Step` says |
| OverlayDiff.Comparator.ScanDiff | coreos-overlay-diff.py:72-128 | the loop over the diff lines, starting from empty variables, stops at the first fatal condition; it appends the warnings of `Run(diff)` and one unscanned comparison per completed pin, in order |
| OverlayDiff.Comparator.DisplayDifference | coreos-overlay-diff.py:47-128 | every call records its comparison; only a call with `recurse` scans its diff, so a nested call adds no warnings and starts no further comparisons |
| OverlayDiff.CompareOverlay | coreos-overlay-diff.py:72-132 | the top-level comparison is `coreos-overlay`, the only scanned one; after it comes one comparison per completed pin, with a non-empty repository and two non-empty commits; the warnings and the abort are those of `Run` |
| OverlayDiff.RunStopsAtFatal | coreos-overlay-diff.py:86-92 | once a fatal condition is raised, later lines change nothing |
| OverlayDiff.RunConsistent | coreos-overlay-diff.py:94-128 | between lines `ours` is always empty and a pending `theirs` has a repository; every emitted pin has a repository and both commits |
| OverlayDiff.NoPinLinesNoEffect | coreos-overlay-diff.py:76-86 | a diff without `CROS_WORKON_COMMIT=` lines yields no pin, no warning and no abort |
| OverlayDiff.RunAppendOnly | coreos-overlay-diff.py:79-96 | warnings and pins are only ever appended: the result for a prefix of the lines is a prefix of the result for all of them |
| OverlayDiff.RunAtMostOnePerLine | coreos-overlay-diff.py:76-128 | each line adds at most one warning or pin |
| OverlayDiff.OtherLinesChangeNothing | coreos-overlay-diff.py:76-86 | a line that is neither an ebuild header nor a pin line leaves the state unchanged |
| OverlayDiff.HeaderSelectsRepo | coreos-overlay-diff.py:77-84 | an ebuild header selects its repository and clears both commits, warning exactly when a commit was pending |
| OverlayDiff.PinLineErrors | coreos-overlay-diff.py:86-92 | a pin line while no repository is selected aborts with "no repo seen"; one starting with neither `-` nor `+` aborts with "unexpected line"; a line that does not abort has both a repository and a sign |
| OverlayDiff.RemovalLine | coreos-overlay-diff.py:94-101 | a removal warns and clears everything when a commit is pending, whether or not the line has a quote; otherwise it aborts when the line has no `"` and records the quoted value as their commit when it has one |
| OverlayDiff.AdditionLine | coreos-overlay-diff.py:102-128 | an addition without a pending `theirs`, or with `ours` already set, warns and clears whether or not the line has a quote; otherwise it aborts when the line has no `"`, completes and emits the pin and clears the variables for a non-empty value, and for an empty value emits nothing and leaves `theirs` pending |
| OverlayDiff.QuotedNone | coreos-overlay-diff.py:101 | indexing the second `"`-piece fails exactly when the line holds no `"` |
| OverlayDiff.QuotedRoundTrip | coreos-overlay-diff.py:109 | the value read back from a line is the text between its first two quotes |
| OverlayDiff.BaseNameAfterLastSlash | coreos-overlay-diff.py:82 | the file name is the slash-free tail of the header line after its last `/`, or the whole line when it has no `/` |
| OverlayDiff.RawRepoNameBeforeLastDash | coreos-overlay-diff.py:82 | the repository name is the file name up to its last `-`, and is empty when there is no `-` |
| OverlayDiff.RawRepoNameOf | coreos-overlay-diff.py:82 | the path `…/name-version` gives `name` when the version has no `-` |
| OverlayDiff.PairedPinLinesEmitOnePin | coreos-overlay-diff.py:77-128 | a header followed by a removal and an addition emits one pin for the header's repository and ends cleared |
| OverlayDiff.AdditionFirstWarns | coreos-overlay-diff.py:102-108 | an addition without a prior removal is a warning, not a pin |
| OverlayDiff.DoubleRemovalWarns | coreos-overlay-diff.py:94-100 | a second removal before the addition is a warning that drops the first |
| OverlayDiff.SecondPairAborts | coreos-overlay-diff.py:86-128 | a second removed pin line after a completed pair in the same ebuild aborts with "no repo seen", because the completed pin cleared the repository |
| OverlayDiff.AdditionAfterDoubleRemovalAborts | coreos-overlay-diff.py:86-108 | after the warning for a second removal, the following addition aborts with "no repo seen", because the warning cleared the repository |
| OverlayDiff.ExampleHeaderSelectsInit | coreos-overlay-diff.py:43-44 | `…/coreos-init-9999.ebuild` names `coreos-init`, which the alias table maps to `init` |
| OverlayDiff.ExampleEmitsInitPin | coreos-overlay-diff.py:43-128 | the `coreos-init` header with a removed and an added pin yields the pin `init` |
| KernelCves.ParseThenStr | show-fixed-kernel-cves.py:22-38 | with exactly two dots, rendering the parsed version gives back the text without its leading `v` |
| KernelCves.StrThenParse | show-fixed-kernel-cves.py:22-38 | parsing a rendered version, with or without a `v`, gives the version back |
| KernelCves.ParseMalformed | show-fixed-kernel-cves.py:27-31 | a string that does not have exactly two dots parses to `-1.-1.-1` |
| KernelCves.ParseHasNoDots | show-fixed-kernel-cves.py:27-35 | parsed components never hold a dot |
| KernelCves.StrIsJoin | show-fixed-kernel-cves.py:37-38 | the rendering is the three components joined by dots |
| KernelCves.EqualIsIdentity | show-fixed-kernel-cves.py:40-44 | two versions are equal exactly when their three components are equal |
| KernelCves.LtIrreflexive | show-fixed-kernel-cves.py:46-47 | no version is below itself |
| KernelCves.LtTransitive | show-fixed-kernel-cves.py:46-47 | the tuple-of-strings order is transitive |
| KernelCves.LtTotal | show-fixed-kernel-cves.py:46-47 | of two different versions, one is below the other |
| KernelCves.ReflectedLe | show-fixed-kernel-cves.py:49-50 | `v <= t`, evaluated as `t >= v`, holds exactly when `v` equals `t` or is below it |
| KernelCves.TagsMembership | show-fixed-kernel-cves.py:66-70 | a version is among the tags exactly when some line holds `refs/tags/`, is not a peeled `^{}` line, and names it after its last `refs/tags/` |
| KernelCves.TagsAppend | show-fixed-kernel-cves.py:67-70 | tags come out in line order |
| KernelCves.TagTextAfterLastRef | show-fixed-kernel-cves.py:68 | the tag text is the tail of the line after its last `refs/tags/` and contains none |
| KernelCves.LsRemoteLineNamesTag | show-fixed-kernel-cves.py:67-70 | an `ls-remote` line `<hash>\trefs/tags/v<version>` yields that version |
| KernelCves.PeeledLineSkipped | show-fixed-kernel-cves.py:69 | a peeled tag line is never taken |
| KernelCves.SelectTagsMembership | show-fixed-kernel-cves.py:74-77 | a tag is selected exactly when both endpoints are among the tags and the tag lies after `from` and not after `to` |
| KernelCves.SelectTagsKeepsOrder | show-fixed-kernel-cves.py:77 | the selection keeps the tags' order |
| KernelCves.SelectTagsEndpoints | show-fixed-kernel-cves.py:77 | `from` is never selected; `to` is selected exactly when it lies after `from` |
| KernelCves.SelectTagsEmptyRange | show-fixed-kernel-cves.py:77 | a range whose `from` is not below `to` selects nothing |
| KernelCves.LexicalRangeAdmitsEarlierPatch | show-fixed-kernel-cves.py:46-47 | with string components, the range from 6.6.32 to 6.6.44 selects 6.6.4 (see Findings) |
| KernelCves.SelectTagsFixedMembership | show-fixed-kernel-cves.py:74-77 | with numeric components, a tag is selected exactly when both endpoints are tags and the tag's numbers lie after `from` and not after `to` |
| KernelCves.NumericRangeExcludesEarlierPatch | show-fixed-kernel-cves.py:77 | with numeric components, 6.6.4 is not in the range from 6.6.32 to 6.6.44 |
| KernelCves.KeyOf | show-fixed-kernel-cves.py:46-47 | for the corrected numeric order of the finding below (not the order as written): the numeric key of a version whose components are rendered numbers is those numbers |
| KernelCves.CveIdBeforeColon | show-fixed-kernel-cves.py:90 | the identifier is the title up to, not including, its first `:` |
| KernelCves.CveIdOf | show-fixed-kernel-cves.py:90 | the title `id:text` gives `id` |
| KernelCves.LinksMembership | show-fixed-kernel-cves.py:89-93 | a link is produced exactly when some title's identifier starts with `CVE`, and it is that identifier's link |
| KernelCves.LinksAppend | show-fixed-kernel-cves.py:89-93 | links come out in feed order |
| KernelCves.LinksSkipOthers | show-fixed-kernel-cves.py:91-92 | titles whose identifiers do not start with `CVE` produce nothing |
| KernelCves.LinksOfAnnouncementAndReply | show-fixed-kernel-cves.py:89-93 | an announcement and a reply give only the announcement's link |
| KernelCves.FeedUrlInjective | show-fixed-kernel-cves.py:87 | different well-formed tags query different feed URLs |
| KernelCves.AppendLinks | show-fixed-kernel-cves.py:89-93 | the inner loop over one feed's entries appends exactly the links of that feed's CVE titles, in feed order, to the links gathered so far |
| KernelCves.FixedLinuxCves | show-fixed-kernel-cves.py:79-94 | the nested loops return the links of every selected tag's feed, tag after tag and in feed order, joined by `", "`; the tags are selected with the numeric order |
| PruneTags.ChunksFlatten | prune-tags.py:17-20 | the chunks, concatenated, are the list |
| PruneTags.ChunksSizes | prune-tags.py:17-20 | every chunk is non-empty and at most `chunk_length` long, and all but the last are exactly that long |
| PruneTags.ChunksCount | prune-tags.py:17-20 | there are `ceil(len / chunk_length)` chunks, and none for an empty list |
| PruneTags.OldTagsByAge | prune-tags.py:5-12 | a name is kept exactly when some non-release line carries it with a creation time more than `day` days (`86400 * day` seconds) before now |
| PruneTags.OldTagsMembership | prune-tags.py:5-14 | a name is kept exactly when some non-release line splits into three tokens, the first being the name and the second a timestamp below the cutoff |
| PruneTags.OldTagsAppend | prune-tags.py:8-12 | kept names come out in listing order |
| PruneTags.MalformedSkipped | prune-tags.py:9-14 | lines that do not split into a name, a number and a zone are skipped |
| PruneTags.CutoffMonotone | prune-tags.py:7-11 | a later cutoff keeps every name an earlier one keeps |
| PruneTags.ParseEntryOf | prune-tags.py:10-12 | the line `name timestamp zone` reads back as that name and timestamp |
| PruneTags.OldTagsAreTokens | prune-tags.py:10-12 | every kept name is one non-empty whitespace-free token |
| PruneTags.RefspecsInverse | prune-tags.py:29-31 | each refspec is `:refs/tags/` followed by its tag, and the tags read back in order |
| PruneTags.PushCommandFields | prune-tags.py:33-34 | a push command splits at whitespace into `git push origin` followed by the chunk's refspecs |
| PruneTags.PruneCommandsDeleteOldTags | prune-tags.py:29-34 | with the default of 15 days, one push command per chunk, each splitting at whitespace into `git push origin` and its chunk's refspecs; the chunks together are the refspecs of the old tags, in order |

## Left out

- The I/O is not modelled: running `git` and `sh`, `os.chdir`, cloning and fetching nested repositories, printing, banners, colour tools and command-line parsing. The diff, the `ls-remote` output and the `for-each-ref` listing are parameters. The final `git fetch --prune` of prune-tags.py:36 is not modelled either.
- The diff text is taken as a sequence of lines: `splitlines()` and decoding errors are not modelled. The same holds for `result.stdout.splitlines()` in show-fixed-kernel-cves.py. For the tag listing, `split(b'\n')` is modelled with `Split`.
- The text of the warning and exception messages is not modelled. Each warning is a value that carries the fields its message reports.
- The diff of a nested repository is not modelled. A nested comparison records its revisions and does not scan, which is what `recurse=False` does.
- The announcement feed is a network query. It is a function parameter from the query URL to the entry titles.
- `time.time()` is a parameter `now` in whole seconds.
- PruneTags.ParseEntry: accepts timestamps that are optionally signed decimal integers. Python's `float` also accepts fractions, exponents, `inf` and `nan`, and comparisons with fractional times are not modelled.
- PruneTags.PushCommandFields: the push commands run through a shell, which also interprets `;`, `$`, `&`, `|` and quotes that git allows in tag names. Only the splitting at whitespace is modelled, so a command is shown to name its chunk's refspecs only as whitespace-separated words.
- The `bytes` values of prune-tags.py are modelled as strings, so `decode("utf-8")` is the identity.
- KernelCves.Equal: comparison with an object that is not a `Version` (which gives `False`) is not modelled, because every comparison in the script is between versions.
- KernelCves.FixedLinuxCves: selects tags with the numeric order instead of the string order that line 77 uses; see Findings.

## Findings

| source | as written | input that shows it | evidently intended | confidence | as-written member | corrected member |
|---|---|---|---|---|---|---|
| show-fixed-kernel-cves.py:46-47 | `__lt__` compares the components as strings, so `"4" > "32"` and `"4" < "44"` | `--from_version 6.6.32 --to_version 6.6.44` with tag `v6.6.4` present: 6.6.4 is selected | compare the components as numbers, so that only 6.6.33 … 6.6.44 are selected | not executed | KernelCves.LexicalRangeAdmitsEarlierPatch | KernelCves.SelectTagsFixedMembership |
