# freelists_stat — a verified model of the counting core

`freelists_stat.py` collects activity statistics for a mailing list hosted on
freelists.org. It fetches the list's archive index, counts how many months of
each year have an archive link, fetches every month page, and counts for each
month the thread entries and the threads per sender. It then assembles
`{"years": ..., "months": [...]}`.

This project models that core in Dafny and proves what it computes:

- `split.dfy` (module `StrSplit`): Python's `str.split(sep)` for a non-empty
  separator, as the left-to-right scan Python performs. It also models the
  idiom `text.split(sep)[-1]`, which the script uses for years (`'-'`),
  senders (`'-'`) and month labels (`', '`).
- `tally.dfy` (module `Counting`): the meaning of the script's counting
  dictionaries, "increment the key's count, or insert it with count 1". A
  key's count is its number of occurrences. `Total` sums a dictionary's
  counts.
- `freelists_stat.dfy` (module `FreelistsStat`): `count_active_months`,
  `month_wise_stat` and the assembly done in `main`.
  - HTML is abstracted to the strings the parser extracts. An anchor is its
    text. A month page is the text of its first `<h1>` plus, for each
    `<div>` in document order, the texts of its `ul > li` items.
  - The network is two functions from URL to page, which yield `None` when a
    request fails. `fetchIndex` reads a page as the index parser sees it, and
    `fetch` as the month-page parser sees it. `Aggregate` requests the index
    at `IndexUrl(listName)` and each month page at that URL, `/` and the
    anchor text.
- `worked_examples.dfy` (module `FreelistsExamples`): concrete instances,
  such as `"Archive, March-2019"` giving the label `"March-2019"`, and an
  index with two month links of 2020 whose pages hold 3 and 5 thread
  entries.
- `wrappers.dfy` (module `Wrappers`): `Option` and `Result`.

The two counting loops of the script (lines 36-43 and 52-59) are one
imperative method, `TallySuffixKeys`. Its loop invariant ties the
dictionary built so far to `Tally(DerivedKeys(texts[..i]))`. The lemmas then
prove the following facts about that reference value:

- its keys are exactly the suffixes of the non-empty texts;
- no key contains `-`;
- every count is at least 1;
- the counts add up to the number of non-empty texts.

The methods `CountActiveMonths` and `MonthWiseStat` are the loop forms of
`count_active_months` and `month_wise_stat`. Each is proved equal to a pure
value: `Tally(DerivedKeys(anchors))` and the function `MonthStatOf`
respectively. `Aggregate` uses those pure values, because a function cannot
call a method.

`main` is the pure function `Aggregate`. Any failure leaves no output:

- a failed request;
- an index without a table;
- a month page without an `<h1>`;
- a month page with fewer than four `<div>`s.

## Two details of the code that the model keeps

- **Order of `months`.** The month fetches run concurrently, but the code
  awaits `asyncio.gather(*tasks)` (line 93). That returns the results in
  task order, not completion order. So `months[i]` belongs to the `i`-th
  anchor, and `Aggregate` states exactly that.
- **Anchors with empty text are still fetched.** The filter at line 92 is
  `if each_a`, which tests the anchor tag itself, not its text. A
  BeautifulSoup tag is always true, so every anchor is fetched, including
  one with empty text (as `url + "/"`). `MonthUrls` therefore has one URL
  per anchor. Empty texts are skipped only when counting years and senders
  (lines 38 and 54), and the model skips them there too.

## Model

| member | source | states |
|---|---|---|
| StrSplit.SplitJoin | freelists_stat.py:39 | joining the pieces of `s.split(d)` with `d` gives `s` back, so splitting loses no text |
| StrSplit.SplitPiecesFree | freelists_stat.py:39 | no piece of `s.split(d)` contains the separator |
| StrSplit.LastSegmentIsLastPiece | freelists_stat.py:39 | `LastSegment(s, d)` is the last element of `s.split(d)`, i.e. `s.split(d)[-1]` |
| StrSplit.LastSegmentSpec | freelists_stat.py:48 | `s.split(d)[-1]` is a suffix of `s` without `d`; it is all of `s` exactly when `d` does not occur, and otherwise an occurrence of `d` stands right before it |
| StrSplit.LastSegmentChar | freelists_stat.py:55 | for a one-character separator `c`, `s.split(c)[-1]` is the text after the last `c`, or all of `s` when there is no `c`, and never contains `c` |
| StrSplit.FindContains | freelists_stat.py:39 | the scan that `split` performs finds an occurrence exactly when the separator occurs in the string |
| Counting.TallySnoc | freelists_stat.py:40-43 | counting one more key increments its count when present and inserts it with count 1 otherwise, which is what the loop body does to the dictionary |
| Counting.TallyKeys | freelists_stat.py:36-44 | the counted keys are exactly the keys that occur, each with its number of occurrences, at least 1 |
| Counting.TotalTally | freelists_stat.py:36-44 | the counts of the dictionary add up to the number of keys counted |
| FreelistsStat.SuffixKeySpec | freelists_stat.py:39 | the year or sender key is the text after the last `-` (the whole text when it has none) and never contains `-` |
| FreelistsStat.SuffixKeyAfterLastDash | freelists_stat.py:55 | for any prefix, `prefix + "-" + key` yields `key` when `key` has no `-` |
| FreelistsStat.MonthLabelAfterComma | freelists_stat.py:48 | for any prefix, even one holding `, ` itself, a heading `prefix + ", " + month` yields the label `month` when `month` holds no `, ` |
| FreelistsStat.DerivedKeysSpec | freelists_stat.py:37-39 | one key per non-empty text, so no more keys than texts; a key is derived exactly when some non-empty text yields it |
| FreelistsStat.KeyCountsSpec | freelists_stat.py:36-44 | the count dictionary's keys are exactly the keys of non-empty texts, none contains `-`, each count is at least 1, and the counts sum to the number of non-empty texts, at most the number of texts |
| FreelistsStat.TallySuffixKeys | freelists_stat.py:36-43 | the loop that skips empty texts and increments or inserts each key builds exactly the tally of the derived keys |
| FreelistsStat.CountActiveMonths | freelists_stat.py:28-44 | the year dictionary has exactly the years of the non-empty anchors as keys, no year contains `-`, each count is at least 1 and the number of anchors with that year, and the counts sum to the number of non-empty anchors |
| FreelistsStat.MonthWiseStat | freelists_stat.py:46-60 | a page with an `<h1>` and at least four `<div>`s yields a one-key dictionary from the month label; its `total_emails` is the number of thread entries of the fourth `<div>`; its senders are exactly the keys of the non-empty entries, each counted at least once, and their counts sum to the non-empty entries, at most `total_emails`; otherwise the missing `<h1>` or `<div>` is the error |
| FreelistsStat.MonthUrls | freelists_stat.py:91-92 | one month URL per anchor, in anchor order, each the index URL, `/` and the anchor text |
| FreelistsStat.FetchAll | freelists_stat.py:91-93 | the gathered responses exist exactly when every request succeeds; they are one per URL, in URL order |
| FreelistsStat.CollectMonths | freelists_stat.py:96 | the month list exists exactly when every page parses; it has one entry per response, in the same order; otherwise the error is that of the first page that fails |
| FreelistsStat.Aggregate | freelists_stat.py:75-96 | output exists exactly when the index requested at the list's index URL was fetched, has a table, and every anchor's page, requested at the index URL, `/` and the anchor text, was fetched and parses; `years` is the year count of the anchors, and `months[i]` is the statistics of the `i`-th anchor's page |
| FreelistsExamples.MonthLabelExample | freelists_stat.py:48 | `"Archive, March-2019"` has the month label `"March-2019"` |
| FreelistsExamples.SenderExample | freelists_stat.py:55 | `"Re: hello-Jane Doe"` is attributed to `"Jane Doe"` |
| FreelistsExamples.YearExample | freelists_stat.py:39 | `"January-2020"` has the year `"2020"` |
| FreelistsExamples.YearOfLink | freelists_stat.py:39 | any link text ending in `-2020` has the year `"2020"` |
| FreelistsExamples.YearKeysExample | freelists_stat.py:37-39 | two month links of 2020 yield the year key `"2020"` twice |
| FreelistsExamples.TallyTwiceExample | freelists_stat.py:40-43 | a year seen twice is counted 2 |
| FreelistsExamples.SameSenderKeys | freelists_stat.py:53-55 | three threads by the same sender, whatever their subjects, yield that sender three times |
| FreelistsExamples.SenderKeysExample | freelists_stat.py:53-55 | five thread entries, one of them empty, yield the senders `[bob, cy, cy, cy]`, with the empty entry yielding none |
| FreelistsExamples.SenderTallyExample | freelists_stat.py:56-59 | one thread by `bob` and three by `cy` are counted `{bob: 1, cy: 3}` |
| FreelistsExamples.SendersExample | freelists_stat.py:52-59 | of five thread entries, one of them empty, four are attributed to a sender, and the sender dictionary is `{bob: 1, cy: 3}` |
| FreelistsExamples.AggregateExample | freelists_stat.py:75-96 | an index with two links of 2020 whose pages hold 3 and 5 entries gives `years == {"2020": 2}` and two month entries, in link order, keyed by the link texts, with 3 and 5 emails |

## Left out

- `hit_url` (lines 62-73): the HTTP GET and its progress message. Requests are the `fetchIndex` and `fetch` parameters, which yield `None` for a request that fails.
- `fetch` is a function, so two anchors with the same text get the same page. The code sends an independent request for each anchor (line 91), and a server could answer them differently.
- The aiohttp session and connector, uvloop and the asyncio event loop: concurrency is not modelled. Only the order in which `gather` returns results matters, and the model keeps it.
- BeautifulSoup: HTML parsing is abstracted to what `find("table")`, `find_all("a")`, `find('h1')`, `select('div')` and `select('ul > li')` extract, and `.text` to a string.
- Writing the JSON file (lines 99-101), reading the list name with `input()`, and printing: no file system or console. `Aggregate` returns the document that would be written.
- The catch-all `except` (lines 102-103): every failure becomes `None` (no output). The message that would be printed is not modelled.
- Python's `ValueError` for an empty separator: the script only uses the literal separators `'-'` and `', '`, so `LastSegment` and `Split` require a non-empty separator.
- Python's indexing of a too-short `select('div')` list raises `IndexError`. This is the `TooFewDivs` error; negative indices never occur.
- The key order of the output dictionaries: maps in the model are unordered.
- `Counting.Total` is a ghost function: it sums a dictionary's counts only to state properties. The script never sums them.
