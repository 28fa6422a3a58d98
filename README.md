# RTEMS build status and documentation catalogue configuration, modelled in Dafny

This project models two Python programs from the RTEMS admin repository and
proves properties of the models.

**The build-status report** (`status/builds.py`) has four parts:

- It enumerates the monthly archives of the `build` mailing list, from a given
  month up to today (`months`).
- It keeps a manifest of downloaded archives (class `lists`). Each month has a
  record `{etag, size, sha512, file}`, and there is an `archives_dirty` flag.
  `download` decides whether a month must be fetched again and updates its
  record.
- It splits a month's mailbox into the `builds`, `tests`, `bsp-builds` and
  `unknown` buckets by subject prefix, and into per-sender lists
  (`emails.parse`).
- It reads build records out of `Build <host>: <result> <arch> on <os>`
  subjects (`emails.build_results`). It then answers the sorted,
  duplicate-free queries of class `results`.

**The documentation site configuration**
(`docs/docs.rtems.org/configuration.py`) does the following:

- It reads titles, latest entries, branches and releases out of an INI file.
- It resolves each release's record: template fallback, legacy and doxygen
  defaults, and title checks.
- It answers release queries.
- It builds the HTML placeholders and `loadCatalogue()` script lines of the
  catalogue page (`generate_html`).

Modules, one per file:

| module | what it holds |
|---|---|
| `Wrappers` | `Option`, `Result` (a raised exception or a `ctx.fatal` call is an `Err` with its message) and `Outcome` |
| `Text` | the Python `str` operations the programs use: `strip`, `split()`, `split(c)`, one-character `replace`, `lower` and `'%d'` |
| `Ordering` | Python's `<` on `str`, `sorted(xs)` and `sorted(set(xs))` |
| `Months` | `months()`, as written and as intended |
| `ArchiveCache` | the `lists` manifest as a class, with a value-level specification `DownloadSpec` |
| `BuildResults` | subject parsing, the `build_results()` loop and the `results` queries |
| `Mail` | the `emails` class: `parse()` over a mailbox of header records, and the unknown queries |
| `DocsConfig` | `today()`, the INI accessors, `load()` and the release queries |
| `DocsHtml` | `_tag`, the script builders and `generate_html()` |

How the outside world is represented:

- **The clock.** Today's date is a parameter.
- **The INI file.** It is already parsed: a map from a section to its
  (key, value) pairs in file order.
- **The disk.** A map from a path to its content.
- **The manifest file.** Its parsed content, when it exists, is a parameter.
- **The network.** A download is represented by the server's headers (ETag
  and Content-Length) and the archive's decompressed content.
- **SHA-512 with base64.** An uninterpreted function of the content, given to
  the cache when it is created.
- **A mailbox.** The sequence of its messages, each reduced to its
  `Message-ID`, `From` and `Subject` headers.
- **`os.linesep`.** It is `"\n"`.

Behaviour of the code that the model keeps:

- `parse()` raises on a repeated Message-ID.
- `_get_subject` deletes line separators.
- Subjects are split on every `:`, and exactly two parts are required.
- The fourth subject word is skipped without being checked.
- A month, the current one included, is fetched again only when its file is
  missing, when its digest does not match, or when the ETag has changed.
- The manifest is saved only by `save()`.
- The local file is `data/<month>.txt`.

## Model

| member | source | states |
|---|---|---|
| `Text.Strip` | status/builds.py:263-266 | `strip()` gives a window `s[i..j]` of its argument with only whitespace outside it and none at either end of the window, so a string that neither starts nor ends with whitespace is unchanged |
| `Text.StripIdempotent` | docs/docs.rtems.org/configuration.py:80 | stripping twice is stripping once |
| `Text.Words` | status/builds.py:259 | `split()` yields non-empty words that contain no whitespace |
| `Text.WordsSpaceFirst` | status/builds.py:259 | `split()` skips a leading whitespace character |
| `Text.WordsWordFirst` | status/builds.py:259 | a word followed by nothing or by whitespace is the first word `split()` yields, followed by the words of the rest |
| `Text.WordsSpaced` | status/builds.py:259-261 | `split()` gives back exactly the words that were joined by single spaces |
| `Text.Split` | status/builds.py:256 | `split(c)` is never empty, its pieces contain no `c`, and joining them with `c` gives back the string |
| `Text.SplitJoin` | docs/docs.rtems.org/configuration.py:80 | splitting on `c` undoes joining pieces that contain no `c` |
| `Text.ReplaceChar` | docs/docs.rtems.org/configuration.py:60 | `replace(c, d)` keeps the length and swaps exactly the `c` characters |
| `Text.RemoveChar` | status/builds.py:230 | `replace(c, '')` leaves no `c`, and does nothing when there is none |
| `Text.RemoveCharSingle` | status/builds.py:230 | one character is kept exactly when it is not `c` |
| `Text.RemoveCharAppend` | status/builds.py:230 | `replace(c, '')` distributes over concatenation, so together with the single-character case it removes exactly the `c`s and keeps every other character in order |
| `Text.Lower` | docs/docs.rtems.org/configuration.py:169 | `lower()` keeps the length and lower-cases each character in place |
| `Text.Decimal` | status/builds.py:48 | `'%d'` of a natural number is a non-empty string of digits, which starts with `0` exactly for 0 and so has no leading zero |
| `Text.DecimalRoundTrip` | status/builds.py:48 | reading a rendered number back gives the number |
| `Ordering.SortedSet` | status/builds.py:173 | `sorted(set(xs))` is strictly ascending and has exactly the elements of `xs` |
| `Ordering.Sort` | docs/docs.rtems.org/configuration.py:206 | `sorted(xs)` is ascending and a permutation of `xs` |
| `Ordering.SortedUnique` | docs/docs.rtems.org/configuration.py:201 | two ascending permutations of each other are equal, so `Sort` is the only possible `sorted()` |
| `Ordering.LessTotal` | status/builds.py:173 | Python's `str` ordering is total |
| `Ordering.LessTransitive` | status/builds.py:173 | Python's `str` ordering is transitive |
| `Months.LabelRoundTrip` | status/builds.py:48 | the `'%Y-%B'` label of a month parses back to that month and no other |
| `Months.Walk` | status/builds.py:47-52 | the loop visits consecutive months (December wraps to January of the next year), with every month in 1..today's month, starts at the first month and is empty exactly when the guard fails at once |
| `Months.WalkLength` | status/builds.py:47-52 | the exact number of months visited: it crosses a year only when today is in December |
| `Months.Months` | status/builds.py:44-53 | the loop of `months()` returns the labels of the walk, or the `ValueError` of `datetime.date` for a year or month below 1 |
| `Months.MonthsThrough` | status/builds.py:44-53 | the corrected enumeration returns every month from the start through today's month, from the start's label to today's label |
| `Months.MonthsMissesYearChange` | status/builds.py:47 | started in November 2022 on 15 January 2023, `months()` returns nothing, while the corrected version returns three months |
| `ArchiveCache.Url` | status/builds.py:93-94 | the URL is exactly `https://lists.rtems.org/pipermail/build/<month>.txt.gz` |
| `ArchiveCache.UrlRoundTrip` | status/builds.py:57-60 | the month can be read back from its URL |
| `ArchiveCache.UrlInjective` | status/builds.py:93-94 | different months have different URLs |
| `ArchiveCache.Checksum` | status/builds.py:76-81 | the digest of the month's file on disk; it fails for an unknown month or a missing file |
| `ArchiveCache.CheckChecksum` | status/builds.py:83-86 | false for an entry without `sha512`, otherwise whether the current digest equals the stored one; `KeyError` for an unknown month |
| `ArchiveCache.FileName` | status/builds.py:88-91 | the entry's file for a known month, and the error `unknown month: <month>` otherwise |
| `ArchiveCache.DownloadKnownMonth` | status/builds.py:108-116 | a month in the manifest is left untouched exactly when its file exists, its checksum matches and the ETag is unchanged |
| `ArchiveCache.DownloadNewMonth` | status/builds.py:117-149 | a new month fails without a Content-Length; otherwise it gets the entry `data/<month>.txt` and the dirty flag is set; a Content-Length of 0 then fails at the first chunk of a non-empty response, and any other fetch succeeds with the server's ETag and size, the unpacked file and its digest |
| `ArchiveCache.DownloadReload` | status/builds.py:108-149 | a stale month in the manifest is fetched again: a recorded size of 0 fails at the first chunk of a non-empty response and changes nothing; otherwise the unpacked file is written and the entry gets the server's ETag, then fails without a Content-Length, or else gets the server's size and the new file's digest |
| `ArchiveCache.DownloadFrame` | status/builds.py:107-149 | no other month's entry changes and no other file changes; the flag becomes dirty only when a month is added |
| `ArchiveCache.DownloadVerified` | status/builds.py:128-149 | after a successful download the file is on disk, the checksum check passes and the entry has the server's ETag |
| `ArchiveCache.DownloadIdempotent` | status/builds.py:108-116 | a second download with the same ETag fetches nothing and changes nothing |
| `ArchiveCache.Lists.constructor` | status/builds.py:67-71 | a clean manifest under the given data file name, loaded from the manifest file when that file exists |
| `ArchiveCache.Lists.Load` | status/builds.py:152-157 | refuses with `load with dirty archives` while dirty; otherwise replaces the manifest with the stored one if there is one |
| `ArchiveCache.Lists.Download` | status/builds.py:96-150 | the new state and outcome are those of `DownloadSpec` |
| `ArchiveCache.Lists.Refresh` | status/builds.py:128-149 | writes the file and updates the entry in place, as `Fetch` states, including the failures at the progress division and at Content-Length |
| `BuildResults.GetList` | status/builds.py:171-173 | `_get_list` is strictly ascending and holds exactly the values of the key in the records |
| `BuildResults.Results.FailedHosts` | status/builds.py:175-176 | every host with a failed build, once, ascending |
| `BuildResults.Results.FailedArchs` | status/builds.py:178-179 | every architecture with a failed build, once, ascending |
| `BuildResults.Results.FailedArchOverlaps` | status/builds.py:185-186 | the hosts of every failed architecture meet the failed hosts |
| `BuildResults.Results.FailedArchBuilds` | status/builds.py:181-190 | `failed_arch_builds()` returns exactly `failed_archs()` |
| `BuildResults.KeepOverlapping` | status/builds.py:184-189 | the loop keeps exactly the architectures whose failed hosts meet the failed hosts, as a subsequence of the input, so in its order |
| `BuildResults.DropPrefix` | status/builds.py:264 | Python's `s[n:]`, which is empty for a shorter string |
| `BuildResults.ParseRecord` | status/builds.py:255-267 | an invalid subject raises `invalid build subject: <subject>` |
| `BuildResults.ParseRecordShape` | status/builds.py:256-266 | a subject is accepted exactly when it has one `:` and at least four words after it; the host is the trimmed text after `Build `, and the result, architecture and OS are words 1, 2 and 4 |
| `BuildResults.ParseWellFormed` | status/builds.py:255-267 | `Build <host>:` followed by spaced words reads back into exactly that host, result, architecture and OS |
| `BuildResults.SplitAtColon` | status/builds.py:256-258 | text with one `:` splits into its two sides |
| `BuildResults.ParseAll` | status/builds.py:254-255 | one parse per subject, in order |
| `BuildResults.WithResult` | status/builds.py:268-271 | exactly the input's records with that result: each kept record has it, and every record with it is kept |
| `BuildResults.WithResultPartition` | status/builds.py:268-273 | when every record has passed or failed, the passes and the fails together number the records |
| `BuildResults.CollectOkIff` | status/builds.py:254-273 | `build_results()` succeeds exactly when every subject parses and has `PASSED` or `FAILED` |
| `BuildResults.CollectPartition` | status/builds.py:262-274 | on success the passes and fails are the `PASSED` and `FAILED` records in arrival order, and together number the subjects |
| `BuildResults.CollectFirstError` | status/builds.py:254-273 | the error is that of the first rejected subject |
| `BuildResults.CollectStops` | status/builds.py:257-273 | after the first error, later subjects change nothing |
| `BuildResults.UnknownResultRaisesKeyError` | status/builds.py:268-273 | a result other than `PASSED` or `FAILED` raises the `KeyError` of the faulty `rec['results']` |
| `BuildResults.CollectParsed` | status/builds.py:251-274 | the loop over the parsed subjects computes `Collect` |
| `BuildResults.CollectSubjects` | status/builds.py:251-274 | `build_results()` on the subjects computes `BuildResultsOf` |
| `BuildResults.BuildResultsOk` | status/builds.py:251-274 | success exactly when every subject is accepted; then passes and fails are the split of all records in order, and together number the subjects |
| `Mail.Subject` | status/builds.py:228-230 | the subject contains no line separator, and is unchanged when it had none; it is `Text.RemoveChar` of the header, whose lemmas say that every other character is kept in order |
| `Mail.ClassifyByPrefix` | status/builds.py:242-249 | each bucket holds exactly the subjects with its prefix; `unknown` holds the subjects with none |
| `Mail.AddMid` | status/builds.py:218-221 | appends the ID under the key, creating the list if needed, and leaves other keys untouched |
| `Mail.GetMessage` | status/builds.py:223-226 | the stored message, or `message not found: <mid>` |
| `Mail.GetSubject` | status/builds.py:228-230 | the stored message's subject without line separators, or the not-found error |
| `Mail.AddToBucket` | status/builds.py:243-249 | appends to exactly one bucket |
| `Mail.Step` | status/builds.py:235-249 | a duplicate ID raises with the data unchanged; otherwise the message is stored and its ID is appended under its sender |
| `Mail.FreshIff` | status/builds.py:236-237 | fresh messages have pairwise distinct IDs, none already stored |
| `Mail.ParseRunOkIff` | status/builds.py:236-237 | `parse()` completes exactly when the IDs are fresh |
| `Mail.ParseRunFirstDuplicate` | status/builds.py:236-237 | `parse()` raises for the first repeated ID and keeps what came before it |
| `Mail.ParseRunStops` | status/builds.py:233-237 | after raising, later messages change nothing |
| `Mail.ParseRunMessages` | status/builds.py:238 | a completed parse stores exactly the old messages and the new IDs, and keeps the old messages |
| `Mail.ParseRunBuckets` | status/builds.py:242-249 | each bucket gains the IDs of its category in arrival order |
| `Mail.StepBucket` | status/builds.py:242-249 | one message extends exactly the bucket of its subject |
| `Mail.ParseRunSenders` | status/builds.py:239-241 | each sender's list gains that sender's IDs in arrival order, and exists exactly when it has some |
| `Mail.IdsInPartition` | status/builds.py:242-249 | the four bucket sizes add up to the number of messages |
| `Mail.ExactlyOneBucket` | status/builds.py:242-249 | each ID lands in the one bucket its subject selects and in no other |
| `Mail.StepValid` | status/builds.py:235-249 | one step keeps every bucket and every sender list consistent with the stored messages |
| `Mail.ParseRunValid` | status/builds.py:232-249 | `parse()` keeps the data consistent |
| `Mail.HasUnknownsAfterParse` | status/builds.py:276-277 | after a parse, `has_unknowns()` holds exactly when some subject matches no prefix |
| `Mail.Subjects` | status/builds.py:281-282 | the subjects of stored messages, in ID order |
| `Mail.Emails.constructor` | status/builds.py:195-207 | empty data for the month's mailbox |
| `Mail.Emails.Parse` | status/builds.py:232-249 | the loop computes `ParseRun` from the current data and keeps the data consistent |
| `Mail.Emails.File` | status/builds.py:238-249 | storing and filing a new ID is one `Step` |
| `Mail.Emails.GetBuildResults` | status/builds.py:251-274 | `build_results()` on the subjects of the `builds` bucket |
| `Mail.Emails.ListUnknowns` | status/builds.py:279-283 | the subjects of the unknown bucket, each matching no prefix and without line separators |
| `DocsConfig.DaySuffix` | docs/docs.rtems.org/configuration.py:18-31 | the corrected suffix is the English ordinal suffix |
| `DocsConfig.Pad2` | docs/docs.rtems.org/configuration.py:32 | `'%2d'` is the decimal digits of the day right-aligned in two columns with spaces, so two characters with a leading space exactly for one-digit days |
| `DocsConfig.TodayAsWritten` | docs/docs.rtems.org/configuration.py:14-33 | the date line is the padded day, the suffix of the chain as written, then a space, the month abbreviation, a space and the year |
| `DocsConfig.Today` | docs/docs.rtems.org/configuration.py:14-33 | the corrected date line is the padded day, its ordinal suffix, then a space, the month abbreviation, a space and the year |
| `DocsConfig.DaySuffixOnlyWrongOn23` | docs/docs.rtems.org/configuration.py:18-31 | the chain as written agrees with the ordinal suffix on every day except the 23rd |
| `DocsConfig.TodayOn23` | docs/docs.rtems.org/configuration.py:28-33 | on the 23rd, `today()` writes `23th`, and the corrected version writes `23rd` |
| `DocsConfig.Lookup` | docs/docs.rtems.org/configuration.py:60 | the value of the first pair with the key, and none exactly when no pair has it |
| `DocsConfig.Optional` | docs/docs.rtems.org/configuration.py:60 | the item with its line separators replaced by spaces, and none when the section or the key is missing |
| `DocsConfig.GetItem` | docs/docs.rtems.org/configuration.py:58-65 | a missing item is fatal exactly when `err` is set, and is `None` otherwise |
| `DocsConfig.Required` | docs/docs.rtems.org/configuration.py:58-64 | the item, or the fatal `config: no <label> found in <section>` |
| `DocsConfig.GetItems` | docs/docs.rtems.org/configuration.py:67-74 | the section's pairs; a missing section is fatal with `err` set, and `[]` otherwise |
| `DocsConfig.StripAll` | docs/docs.rtems.org/configuration.py:80 | each piece stripped, in order |
| `DocsConfig.CommaList` | docs/docs.rtems.org/configuration.py:76-84 | `[]` for a missing optional item; unsorted, one stripped entry per piece in order; with `sort`, strictly ascending with the same elements |
| `DocsConfig.CommaListPieces` | docs/docs.rtems.org/configuration.py:80-84 | an item that is present gives a non-empty unsorted list with one entry per comma-separated piece |
| `DocsConfig.StripQuotes` | docs/docs.rtems.org/configuration.py:137-141 | at most one leading and one trailing `"` are removed; an empty value or a lone `"` raises `IndexError` |
| `DocsConfig.StripQuotesRoundTrip` | docs/docs.rtems.org/configuration.py:137-141 | a title with or without surrounding quotes reads back as itself |
| `DocsConfig.TitlesOfOk` | docs/docs.rtems.org/configuration.py:136-142 | loading the titles succeeds exactly when every value can be stripped |
| `DocsConfig.TitlesOfKeys` | docs/docs.rtems.org/configuration.py:136-142 | the titles are keyed by exactly the keys of the pairs |
| `DocsConfig.TitlesOfLast` | docs/docs.rtems.org/configuration.py:142 | each key holds the stripped value of its last pair |
| `DocsConfig.TitlesOfStops` | docs/docs.rtems.org/configuration.py:136-141 | after the first failing title, later pairs change nothing |
| `DocsConfig.LatestOf` | docs/docs.rtems.org/configuration.py:143-145 | the latest entries are keyed by exactly the keys of the pairs |
| `DocsConfig.LatestOfLast` | docs/docs.rtems.org/configuration.py:143-145 | each key holds the value of its last pair |
| `DocsConfig.Template` | docs/docs.rtems.org/configuration.py:153-155 | the template item when there is one, else the label |
| `DocsConfig.TemplateOrLabel` | docs/docs.rtems.org/configuration.py:156-158 | an item is looked up in the template first, then in the label |
| `DocsConfig.MissingTitle` | docs/docs.rtems.org/configuration.py:168-170 | the first document whose lower-cased name is not a title key, and none exactly when every one is |
| `DocsConfig.ResolveRelease` | docs/docs.rtems.org/configuration.py:150-174 | a release is legacy exactly when `legacy` is `yes`; a legacy release holds the `manuals` and `supplements` lists of its template, requires `html`, `pdf` and `date` and titled documents, takes `index_per_doc` from the template then the label, and is fatal with `config: no manuals found in <template>` when the template has no `manuals`, then with `config: no html found in <label>`, `pdf` and `date` in that order, then with `title not found in <label>: <doc>` for the first untitled document, and otherwise is exactly the legacy record of those values; any other release keeps its `legacy` value and gets `doxygen` from the template, defaulting to `no` |
| `DocsConfig.ResolveLegacy` | docs/docs.rtems.org/configuration.py:159-171 | the legacy branch: the lists, items and titles a resolved legacy release holds; the fatal errors for a missing `manuals`, `html`, `pdf` and `date`, in that order, and for the first untitled document; and the record built when all are present |
| `DocsConfig.Resolved` | docs/docs.rtems.org/configuration.py:149-153 | the resolution of each `[releases]` label, in order |
| `DocsConfig.FileRecordsOk` | docs/docs.rtems.org/configuration.py:149-152 | filing succeeds exactly when every resolution does |
| `DocsConfig.FileRecordsStops` | docs/docs.rtems.org/configuration.py:149-152 | after the first failure, later labels change nothing |
| `DocsConfig.RecordsOfOk` | docs/docs.rtems.org/configuration.py:147-174 | resolving the releases succeeds exactly when every label resolves |
| `DocsConfig.RecordsOfKeys` | docs/docs.rtems.org/configuration.py:149-151 | the records are keyed by exactly the labels |
| `DocsConfig.RecordsOfValue` | docs/docs.rtems.org/configuration.py:149-174 | each label holds its own resolution |
| `DocsConfig.LoadValid` | docs/docs.rtems.org/configuration.py:147-151 | a loaded configuration has a record for every listed release |
| `DocsConfig.LoadTitles` | docs/docs.rtems.org/configuration.py:135-142 | the titles loop computes `TitlesOf` |
| `DocsConfig.LoadLatest` | docs/docs.rtems.org/configuration.py:143-145 | the latest loop computes `LatestOf` |
| `DocsConfig.FileAll` | docs/docs.rtems.org/configuration.py:149-152 | the releases loop files each resolution under its label, stopping at the first failure |
| `DocsConfig.LoadRecords` | docs/docs.rtems.org/configuration.py:147-174 | the releases dictionary is `RecordsOf` |
| `DocsConfig.Load` | docs/docs.rtems.org/configuration.py:127-174 | `load()` computes `LoadSpec`, reading the titles, latest, branches and releases sections in that order, and its result is valid |
| `DocsConfig.GetRelease` | docs/docs.rtems.org/configuration.py:176-182 | the first listed release of that name with its label and record, or `cannot find release: <name>` |
| `DocsConfig.IsLegacyRelease` | docs/docs.rtems.org/configuration.py:184-188 | whether the found record is legacy, and fatal when no release has that name |
| `DocsConfig.IsDoxygenRelease` | docs/docs.rtems.org/configuration.py:190-196 | true exactly for a non-legacy record with `doxygen` set to `yes` |
| `DocsConfig.LegacyIsNotDoxygen` | docs/docs.rtems.org/configuration.py:184-196 | no legacy release is a doxygen release |
| `DocsConfig.Names` | docs/docs.rtems.org/configuration.py:206 | the release names, in list order |
| `DocsConfig.LegacyNames` | docs/docs.rtems.org/configuration.py:198-201 | a name is listed exactly when some release of that name has a legacy record; the list is a sub-multiset of all names |
| `DocsConfig.GetReleases` | docs/docs.rtems.org/configuration.py:203-206 | all release names, ascending, as a permutation |
| `DocsConfig.GetLegacyReleases` | docs/docs.rtems.org/configuration.py:198-201 | the legacy release names, ascending, as a permutation, holding exactly the names with a legacy record |
| `DocsConfig.LegacyAmongReleases` | docs/docs.rtems.org/configuration.py:198-206 | the legacy releases are among all releases, with no more repeats |
| `DocsConfig.Latest` | docs/docs.rtems.org/configuration.py:315-318 | the entry, or the fatal error `<what>not found in latest` |
| `DocsHtml.Tag` | docs/docs.rtems.org/configuration.py:239-242 | every special character becomes `_` and the other characters stay, so the length is kept |
| `DocsHtml.TagOf` | docs/docs.rtems.org/configuration.py:239-242 | the `replace` loop computes `Tag` |
| `DocsHtml.TagClean` | docs/docs.rtems.org/configuration.py:239-242 | a tag holds no special character, and keeps every other character in place |
| `DocsHtml.TagIdempotent` | docs/docs.rtems.org/configuration.py:239-242 | tagging a tag changes nothing |
| `DocsHtml.KindOf` | docs/docs.rtems.org/configuration.py:281-297 | only `branches`, `releases` and `latest-release` are known; anything else raises `invalid html type: <what>` |
| `DocsHtml.BranchScript` | docs/docs.rtems.org/configuration.py:246-251 | the script line of a branch ends in a line separator, and its quoted arguments are `branches/<path>/catalogue.xml`, `branches/<path>` and the tag, with the doxygen flag `true` |
| `DocsHtml.LoadCatalogue` | docs/docs.rtems.org/configuration.py:250-251 | split at its quotes, a `loadCatalogue()` line gives back its catalogue, path and tag arguments and its doxygen flag when none of them holds a quote |
| `DocsHtml.ReleaseScript` | docs/docs.rtems.org/configuration.py:255-271 | the script line of a release ends in a line separator; its quoted arguments are `releases/<name>.xml` and `releases` for a legacy release and `releases/<label>/catalogue.xml` and `releases/<label>` for any other, then the tag, and its doxygen flag is `true` exactly for a doxygen release |
| `DocsHtml.Script` | docs/docs.rtems.org/configuration.py:282-309 | a branch entry gets the branch script line and a release entry the release script line |
| `DocsHtml.Block` | docs/docs.rtems.org/configuration.py:306-308 | the placeholder ends in a line separator and, split into lines, is the `<div id="rtems-catalogue-<tag>">` line, the `<b><name></b> No catalogue found.` line and the `</div>` line, each indented |
| `DocsHtml.Selection` | docs/docs.rtems.org/configuration.py:273-276 | an entry is shown when there is no target, or when its tag is the target |
| `DocsHtml.Blocks` | docs/docs.rtems.org/configuration.py:303-308 | one block per entry, the i-th built from the tag and name of the i-th entry |
| `DocsHtml.Scripts` | docs/docs.rtems.org/configuration.py:303-309 | one script line per entry, the i-th that of the i-th entry |
| `DocsHtml.DropLast` | docs/docs.rtems.org/configuration.py:311-312 | `s[:-1]` removes the last character, and keeps the empty string empty |
| `DocsHtml.Spaces` | docs/docs.rtems.org/configuration.py:300 | `' ' * n` is `n` spaces, none for `n <= 0` |
| `DocsHtml.Target` | docs/docs.rtems.org/configuration.py:275-276 | the latest-release match is fatal exactly when there is a release to compare and `[latest]` has no `release` |
| `DocsHtml.Match` | docs/docs.rtems.org/configuration.py:304-305 | the tag of the entry and whether it is shown, or the error of `latest('release')` |
| `DocsHtml.GatherNext` | docs/docs.rtems.org/configuration.py:305-309 | one more pass appends the next piece exactly when it is selected |
| `DocsHtml.Accumulate` | docs/docs.rtems.org/configuration.py:299-309 | the loop appends a 3-line block and a script line for each shown entry, in order |
| `DocsHtml.GenerateHtml` | docs/docs.rtems.org/configuration.py:238-313 | `generate_html()` computes `HtmlSpec` |
| `DocsHtml.HtmlErrors` | docs/docs.rtems.org/configuration.py:278-297 | fatal exactly for an unknown kind, or for a latest release with releases but no `release` entry in `[latest]` |
| `DocsHtml.HtmlKind` | docs/docs.rtems.org/configuration.py:281-297 | asking by name gives the fragments of that kind |
| `DocsHtml.GatherEnds` | docs/docs.rtems.org/configuration.py:303-309 | the accumulated text is empty exactly when nothing is shown, and ends in a line separator otherwise |
| `DocsHtml.GatherDrop` | docs/docs.rtems.org/configuration.py:311-312 | `[:-1]` removes exactly the final line separator |
| `DocsHtml.FragmentShape` | docs/docs.rtems.org/configuration.py:299-313 | both fragments are the accumulated text without its final line separator, and are empty exactly when nothing is shown |
| `DocsHtml.FragmentAll` | docs/docs.rtems.org/configuration.py:281-290 | the branches and releases fragments show every entry |
| `DocsHtml.LatestReleaseShown` | docs/docs.rtems.org/configuration.py:291-295 | when the latest release is listed, the latest-release fragments are not empty |

## Left out

- The network (status/builds.py:97-106). The SSL attempt always fails, because the name `_ssl_context` is undefined, and falls back to a plain request. The request is replaced by its headers and content.
- Streaming to the `.gz` file and gunzipping (status/builds.py:129-146). This is file I/O. The decompressed content is what is written, and the `.gz` file is not modelled. A compressed response that carries no bytes is the header flag `compressedEmpty`, and it unpacks to an empty file.
- The progress print (status/builds.py:139-143). It is output only. Its division by the recorded size happens once per chunk that arrives, and is modelled: with a recorded size of 0 a response with at least one chunk fails, while an empty response never divides and goes on to unpack, record the ETag, size and digest.
- The locale of `strftime` (status/builds.py:48, docs/docs.rtems.org/configuration.py:16). Month names are those of the C/English locale: `Months.MonthNames` for `%B` and `DocsConfig.MonthAbbrevs` for `%b`.
- Floating point of the progress percentage. It has no effect on the state.
- `save()`, the JSON encoding of the manifest and the save in `__del__`. These are file I/O.
- The manifest file's JSON decoding. The stored manifest is a parameter.
- A manifest entry lacking `etag`, `size` or `file`. The JSON the program writes always has them.
- A Content-Length that `int()` rejects. It is treated like a missing one; the two raise different exceptions.
- The decompression of the mailbox and `mailbox`/`email` parsing. A mailbox is given as header records.
- A message that lacks a header is not modelled.
- The `pass` and `fail` keys of `data`. No code reads them.
- `__str__` of `emails`, `__str__` of `configuration`, and the `__main__` driver. These are output only.
- The `print` in `failed_arch_builds` (status/builds.py:187-188). It is output only.
- configparser. The INI file is given parsed, as its sections' lists of pairs with the raw values. Four of its effects are not modelled:
  - the lower-casing of option names;
  - the `[DEFAULT]` section;
  - the basic interpolation of `ConfigParser()`: a value holding `%(name)s` reads as the referenced option, and a lone `%` raises `InterpolationSyntaxError`, which the bare `except` of `_get_item` (configuration.py:58-65) turns into `None` or the fatal `config: no <label> found in <section>`; the model returns the raw value;
  - strict mode: a repeated section or option in a file makes `read()` raise `DuplicateSectionError` or `DuplicateOptionError`, which `load()` (configuration.py:130-134) does not catch, since it only catches `ParsingError`; `Lookup` instead takes the first pair with the key.
- The XML catalogue writer `generate_xml` and `_xml_create_doc`. They build a minidom tree and write files.
- The `no configuration loaded` guards. They cannot fail after the constructor's `load()` has succeeded.
- A release label named `releases` overwrites the list kept under that key (docs/docs.rtems.org/configuration.py:148-151). The model keeps the list and the records apart.
- Text.Lower: only ASCII letters are lower-cased; Python's `str.lower()` also maps other letters.
- Text.Decimal: `strftime('%Y')` is rendered without zero padding, as the C library does for years below 1000.
- BuildResults.CollectSubjects: all subjects are parsed before the loop, while the source parses each in the loop. Parsing has no effects, so the result and the first error are the same.
- DocsConfig.LoadRecords: all labels are resolved before the loop, while the source resolves each in the loop. Resolution has no effects, so the result and the first error are the same.

## Findings

| source | as written | input that shows it | evidently intended | confidence | as-written member | corrected member |
|---|---|---|---|---|---|---|
| status/builds.py:47 | the loop guard `month < today.month + 1` compares month numbers across years, so it stops at the first month number above today's, even in an earlier year | `months(2022, 11)` on 15 January 2023 returns `[]` | every month from the start through today's month: 2022-November, 2022-December, 2023-January | not executed | `Months.Months` (shown by `Months.MonthsMissesYearChange`) | `Months.MonthsThrough` |
| docs/docs.rtems.org/configuration.py:28-31 | only day 3 gets `rd`; day 23 falls through to `th` | `today()` on the 23rd of a month gives `23th` | the English ordinal `23rd` | not executed | `DocsConfig.TodayAsWritten` (shown by `DocsConfig.TodayOn23`) | `DocsConfig.Today` |
