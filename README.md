# Subscription-link crawler, modelled in Dafny

`main.py` is a one-shot crawler with three stages, driven by `run_crawler`:

1. It reads the corpus file `all_link.txt` as a set of stripped, non-empty lines.
2. It walks up to ten pages of GitHub code search. It follows 403 rate limits with a sleep and a retry of the same page. It stops on an empty page or any other status.
3. For every search item with an `html_url`, it derives the raw-content location (`github.com` to `raw.githubusercontent.com`, `/blob/` to `/`). It downloads the file and extracts subscription links with one regular expression.
4. The links not already in the corpus form the delta. The sorted delta is written to a timestamped snapshot file and appended to the corpus, one link per line.
5. A Telegram notification follows: an inline message listing the links when there are fewer than 10, otherwise the snapshot file with a caption.

The model keeps each of these as the source has it:

- Pure computations are functions. Each is paired with a second description and a lemma connecting the two:
  - `str.strip` is shown to cut out the slice between the leading and trailing whitespace. `str.replace` is shown to equal `split` then `join`.
  - The recursive string comparison is shown to be lexicographic order by first difference. `sorted` is characterised by its members and strict order.
  - The regular expression is a scanner: scheme, lazy middle, literal marker, greedy token. Its match is proved to be exactly the one the expression describes: the earliest marker, then the longest token. A link at the scan position is proved to be matched.
  - `findall` is shown to resume right after each match and to skip no link in the text.
  - Reading a text file with universal newlines is shown to give back, once the lines are put together, the text with every `\r\n` and lone `\r` turned into `\n`.
  - The message and caption texts are described by the lines they read back as.
- Loops that build a value step by step are methods with loop invariants:
  - The search-page loop.
  - The merge of download results.
  - The append loop.
  - The message builder.
- A run of the crawler is a method from the corpus file's text, a script of search responses and a download function to everything the run produces. It returns the requests with their sleeps, the links found, the new corpus text, the snapshot file and the notification.

Modules, one per file:

| module | file | role |
|---|---|---|
| `Wrappers` | `wrappers.dfy` | `Option` |
| `Strings` | `strings.dfy` | whitespace and `strip`, `replace`, `split`/`join`, decimal text |
| `Ordering` | `ordering.dfy` | Python's order on `str` and `sorted` of a set |
| `LinkPattern` | `link_pattern.dfy` | the link regular expression and `findall` |
| `RawUrl` | `raw_url.dfy` | `build_raw_url` and the list of download locations |
| `Corpus` | `corpus.dfy` | reading, diffing and appending to the corpus file |
| `Traversal` | `traversal.dfy` | the search-page loop |
| `Fetch` | `fetch.dfy` | one download and the merge of all of them |
| `Notify` | `notify.dfy` | the inline message and the file caption |
| `Crawler` | `crawler.dfy` | `run_crawler` |

## Model

| member | source | states |
|---|---|---|
| Strings.Strip | main.py:32 | the stripped line neither starts nor ends with whitespace (CPython's `isspace` table), and a line without whitespace is unchanged |
| Strings.StripTrims | main.py:32 | `strip` removes whitespace from both ends and nothing else: the result is a slice of the line with only whitespace before and after it, and it neither starts nor ends with whitespace |
| Strings.StripIgnoresTrailingSpace | main.py:32 | the line break Python keeps at the end of a line read from a file never changes the stripped line |
| Strings.Replace | main.py:38 | a text without the target comes back unchanged; a non-empty text with a non-empty replacement stays non-empty |
| Strings.ReplaceIsJoinOfSplit | main.py:38 | `s.replace(a, b)` equals `b.join(s.split(a))` for every text and non-empty target |
| Strings.Decimal | main.py:44 | the f-string text of a count is non-empty, all decimal digits, and starts with `0` only for zero |
| Strings.DecimalRoundTrip | main.py:44 | reading the decimal text of `n` back gives `n` |
| Ordering.BelowTotal | main.py:138 | any two distinct strings are ordered one way or the other by code point |
| Ordering.BelowTransitive | main.py:138 | the string order is transitive |
| Ordering.BelowAsymmetric | main.py:138 | the string order is asymmetric |
| Ordering.BelowIsLexicographic | main.py:138 | the string comparison holds exactly when the two strings agree up to some position and there the first either ends while the second goes on, or has the smaller code point |
| Ordering.Sorted | main.py:138 | `sorted(list(s))` holds exactly the members of `s`, each once, in strictly increasing order |
| Ordering.SortedMembers | main.py:138 | the members of the sorted list, taken as a set, are the set that was sorted |
| Ordering.SortedOfIncreasing | main.py:48 | sorting an already sorted, repetition-free list gives it back, so the message builder's second `sorted` changes nothing |
| LinkPattern.TokenEnd | main.py:88 | the greedy `[a-zA-Z0-9\-_]+` runs over token characters only and stops at a non-token character or the end |
| LinkPattern.FirstTail | main.py:88 | the lazy middle stops at the first position where the marker and a token character follow, crossing only allowed characters |
| LinkPattern.FirstTailMisses | main.py:88 | when the lazy middle gives up, no marker-and-token stands anywhere it could have widened to |
| LinkPattern.FirstTailReaches | main.py:88 | the lazy middle, crossing only allowed characters, finds a marker-and-token no later than any it can reach |
| LinkPattern.MatchEnd | main.py:88 | a match is non-empty and lies within the text |
| LinkPattern.MatchEndLeftmost | main.py:88 | the scanner ends its match at `e` exactly when three things hold. First, the text up to `e` is a scheme, allowed characters, the marker and a token. Second, no marker-and-token stands earlier in the middle: the lazy `+?` stops at the first. Third, the character at `e` is not a token character: the greedy `+` takes the longest run. Both directions are proved |
| LinkPattern.LinkPrefixFound | main.py:88 | whenever some prefix of the text has the link shape, the expression matches at the start of the text |
| LinkPattern.NoMatchNoLink | main.py:88 | where the expression does not match, no prefix of the text has the link shape |
| LinkPattern.MatchIsLink | main.py:88 | every match is a scheme, a non-empty middle without excluded characters, the marker and a non-empty token that ends the match |
| LinkPattern.MatchOfPrefix | main.py:95 | a match cut out of the text is, scanned on its own, one match from its first character to its last |
| LinkPattern.FindAll | main.py:95 | `findall` returns no more strings than the text has characters, and none of them is empty |
| LinkPattern.FindAllMatches | main.py:95 | every string `findall` returns is a whole match and has the link shape |
| LinkPattern.FindAllInText | main.py:95 | every string `findall` returns occurs in the scanned text |
| LinkPattern.FindAllAfterMatch | main.py:95 | after a whole match that the next character cannot extend, `findall` returns that match and then exactly what it returns on the rest of the text: the scan resumes where the match ends |
| LinkPattern.FindAllCovers | main.py:95 | `findall` skips no link: wherever a link stands in the text, one of the returned matches stands at a place covering the link's first character |
| LinkPattern.FindAllEmpty | main.py:95 | `findall` returns nothing exactly when no part of the text has the link shape |
| LinkPattern.FindAllStripped | main.py:95-97 | every string `findall` returns is non-empty and unchanged by `strip` |
| LinkPattern.Extract | main.py:95-97 | the strip-and-drop-empty set comprehension keeps exactly the matches |
| LinkPattern.LinkCharacters | main.py:88 | a link starts with `http://` or `https://`, holds no whitespace or excluded delimiter, and ends in a token character |
| LinkPattern.ExtractedLinks | main.py:95-97 | the strip-and-drop-empty clean-up keeps every match as it is: the result is the set of matches, each a non-empty whitespace-free link occurring in the text |
| LinkPattern.WholeMatchAlone | main.py:95 | `findall` on a whole match returns just that match |
| LinkPattern.ExtractIdempotent | main.py:95-97 | extracting from any extracted link yields exactly that link |
| RawUrl.BuildRawUrl | main.py:34-38 | no location exactly when `html_url` is missing or empty; a derived location is never empty |
| RawUrl.RawUrlBySplitting | main.py:38 | the derived location equals the split/join spelling of both replacements |
| RawUrl.RawUrlUnchanged | main.py:38 | a URL naming neither `github.com` nor `/blob/` is returned unchanged |
| RawUrl.FetchTasks | main.py:130 | never more tasks than items, no task is empty, and a location is a task exactly when some item derives it |
| RawUrl.FetchTasksPlaces | main.py:130 | there are exactly as many download locations as items with a location, and each such item's location comes right after those of the located items before it |
| RawUrl.LocatedOrder | main.py:130 | of two located items, the later one has the later task |
| Corpus.Load | main.py:26-29 | an absent corpus file reads as the empty set |
| Corpus.LoadedAreStripped | main.py:32 | every link read from the corpus is non-empty and neither starts nor ends with whitespace |
| Corpus.StrippedLines | main.py:32 | no lines give no links, and no link read is empty |
| Corpus.StrippedLinesConcat | main.py:32 | the links of two runs of lines are the union of the links of each |
| Corpus.StripStored | main.py:32 | a stored link followed by its line break strips back to the link |
| Corpus.StrippedWithBreaks | main.py:32 | lines written as link-plus-break read back as exactly the set of those links |
| Corpus.LinesAppend | main.py:30-32 | a text ending in a line break, followed by more text, reads as its own lines followed by the lines of the rest |
| Corpus.LinesOfLine | main.py:30-32 | text without a line break reads as one line, with or without one trailing break |
| Corpus.Lines | main.py:30-32 | a text reads as no lines exactly when it is empty |
| Corpus.LinesTranslate | main.py:30-32 | the lines read from a text, put back together, are the text with each `\r\n` and lone `\r` turned into `\n` |
| Corpus.NewLinks | main.py:136 | the delta shares nothing with the corpus, holds only found links, and together with the corpus covers everything found |
| Corpus.Appended | main.py:149-151 | the appended text is empty exactly when there are no links, and otherwise ends in a line break |
| Corpus.AppendedSnoc | main.py:150-151 | appending one more link adds that link and a line break at the end |
| Corpus.AppendLinks | main.py:149-151 | the corpus text after the loop is the old text (empty when the file was absent) followed by every link and a line break, in list order |
| Corpus.SnapshotIsAppended | main.py:146 | for a non-empty delta, the snapshot file's text is exactly the text appended to the corpus |
| Corpus.SnapshotText | main.py:146 | the snapshot text always ends in a line break |
| Corpus.LinesOfAppended | main.py:149-151 | the appended text reads back as one line per link, in order |
| Corpus.AppendThenLoad | main.py:149-151 | appending links to a corpus that ends cleanly and reading it back gives the old links together with the appended ones |
| Corpus.AppendThenStrip | main.py:149-151 | the same round trip stated on the corpus text |
| Corpus.UnterminatedMasterMerges | main.py:149-151 | when the corpus ends in a line without a break, the first appended link merges into that line and is not read back |
| Corpus.DistinctConcat | main.py:32 | two runs of lines without a repeated link, the second sharing no link with the first, have none together |
| Corpus.DistinctWithBreaks | main.py:150-151 | a sorted delta written one per line repeats no link |
| Corpus.AppendKeepsNoRepeats | main.py:136-151 | appending a sorted delta that shares nothing with a repetition-free corpus keeps every link on a single line |
| Traversal.Traverse | main.py:109-127 | the loop's requests, sleeps and collected items are the walk of the response script (`IsWalk`) |
| Traversal.WalkUnique | main.py:109-127 | a script has exactly one walk, so the description fixes the loop's outcome |
| Traversal.WalkPages | main.py:110-120 | each request asks for one page more than the pages collected before it; at most 10 pages are collected; requested pages never go down and strictly rise after a collected page |
| Traversal.PagesOrdered | main.py:120 | the page of a later request is at least that of an earlier one, and greater after a collected page |
| Traversal.RateLimitRetriesSamePage | main.py:122-125 | after a 403 the loop sleeps `Retry-After` (60 when absent) and asks for the same page again |
| Traversal.ThreePagesThenEmpty | main.py:114-121 | three pages with items and an empty fourth: the three are collected with an 8-second sleep after each, and the walk ends at page 4 |
| Traversal.RateLimitThenPage | main.py:114-125 | a 403 with `Retry-After: 5` and then a page of items: sleep 5, page 1 again, collected |
| Traversal.CeilingAfterTenPages | main.py:111-121 | when every page has items the loop stops after page 10, with no sleep after the tenth |
| Fetch.FetchLinks | main.py:85-100 | a non-200 response or an exception gives the empty set; a 200 gives the set of `findall` matches of the text |
| Fetch.FetchedAreLinks | main.py:93-97 | every link of a download comes from a 200 response, occurs in its text, has the link shape and no whitespace |
| Fetch.MergeResults | main.py:132-133 | the merged set holds exactly the links that some result holds |
| Fetch.CollectLinks | main.py:130-133 | a link is collected exactly when the download of some item's raw location found it |
| Fetch.CollectedAreLinks | main.py:130-133 | every collected link has the link shape and no whitespace |
| Notify.Listing | main.py:48-49 | the listing is empty exactly when there are no links, and otherwise ends in a line break |
| Notify.InlineMessage | main.py:40-49 | the message is the title with the count, the rule, then one numbered line per link in sorted order |
| Notify.ListingLines | main.py:48-49 | the listing reads back as one line per link, line `i` being ``i+1. `link` `` |
| Notify.MessageLines | main.py:43-49 | the message reads back as the title line, the rule line and exactly one numbered line per link, in list order |
| Notify.MessageText | main.py:43-49 | the message always ends in a line break |
| Notify.CaptionLines | main.py:63-68 | the caption reads back as four lines: title, rule, count, and the minute without a line break |
| Notify.Caption | main.py:63-68 | the caption ends with the backtick that closes the minute, with no line break after it |
| Crawler.Persisted | main.py:137-151 | without a delta the corpus is untouched; with one it strictly extends the old text and ends in a line break |
| Crawler.PersistRoundTrip | main.py:136-151 | persisting the delta and reading the corpus back gives the old corpus together with everything found |
| Crawler.PersistNoRepeats | main.py:136-151 | persisting the delta keeps a repetition-free corpus free of repetitions |
| Crawler.PersistedLoad | main.py:136-151 | with or without a delta, the corpus read back after stage 3 is the old corpus together with everything found |
| Crawler.PersistedNoRepeats | main.py:136-151 | with or without a delta, the corpus after stage 3 repeats no link if it repeated none before |
| Crawler.InlineListsDelta | main.py:156-157 | the inline message of a delta has two header lines and then exactly the sorted delta, one numbered line each |
| Crawler.SnapshotName | main.py:142 | the timestamp can be read back from the file name, between the fixed prefix and the `.txt` suffix |
| Crawler.SnapshotNameInjective | main.py:142 | runs with different timestamps write different snapshot files |
| Crawler.NoticeFor | main.py:156-159 | the inline message is chosen exactly when the delta has fewer than 10 links; otherwise the snapshot file is sent under its own name |
| Crawler.Persist | main.py:137-161 | without a delta nothing is written or sent; with one, the snapshot file, the appended corpus and the notification chosen by the count of 10 |
| Crawler.Discover | main.py:109-133 | stages 1 and 2: the walk of the script, and exactly the links found by the downloads of its items, each storable as a line |
| Crawler.RunCrawler | main.py:102-161 | one run: the walk, the links found, the delta-driven files and notification; reading the corpus back gives old plus found, and no link is repeated |

## Left out

- The network (GitHub search, raw downloads, Telegram) is a parameter:
  - The search responses are a script read one per request.
  - Downloads are a function from location to outcome, assumed to give the same outcome for the same location within a run.
  - The two Telegram sends are not modelled; their texts are.
- Concurrency is left out: the semaphore of 25, `asyncio.gather` and the session. The results are merged in task order. Since they are united into a set, the order cannot change the outcome.
- Sleeps are recorded with the request they follow instead of being performed.
- Timeouts and connection errors of a download are the `Raised` outcome.
- `datetime.now()` is left out: the snapshot timestamp and the caption minute are parameters.
- Byte decoding is left out. Neither `errors='ignore'` on downloads nor UTF-8 decoding of the corpus file is modelled; texts are sequences of characters. Dafny's `char` has no surrogate code points.
- JSON parsing of the search response is left out. An item is reduced to its `html_url` as an optional string. A non-string `html_url` is not modelled.
- Traversal.Traverse: the search request and `resp.json()` (main.py:113-116) have no exception handler, so a transport error, a timeout or a body that is not JSON raises out of `run_crawler` before stage 2. Every response in the model's script carries a status, so that abort is not modelled.
- Traversal.Traverse: a `Retry-After` header that is not an integer makes `int()` raise in the source and end the run. The model reads the header as an optional integer.
- Traversal.Traverse: the source's 403 branch retries without bound. The model also stops when the script of responses runs out.
- Crawler.RunCrawler: `send_telegram_msg` has no exception handler, so a failed send raises after both files were written. The sends themselves are not modelled.
- Crawler.RunCrawler: the round-trip and no-repeat properties are stated only for a corpus file that is absent, empty or ends in a line break. Otherwise the first appended link merges into the last old line, as Corpus.UnterminatedMasterMerges shows.
- Notify.InlineMessage: takes the list of sample links and sorts the set of its members, so duplicates in the list would be collapsed. The only caller passes the sorted delta, which has none (Ordering.SortedOfIncreasing).
- Reading the snapshot file back for the upload is not modelled. The snapshot's text is stored in the run result instead.
- Configuration globals, request headers, `print` logging and the `__main__` entry point are left out.
