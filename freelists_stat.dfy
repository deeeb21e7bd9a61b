/**
 * The counting core of freelists_stat.py: active months per year from the
 * archive index, emails and senders per month page, and the assembly of the
 * output document from the index and the month pages.
 *
 * HTML is abstracted to the strings the parser extracts from it: an anchor
 * is its text; a month page is the text of its first `<h1>` and, for each
 * `<div>` in document order, the texts of the `ul > li` items inside it.
 * Network fetches are a function from URL to page, `None` when the request
 * fails.
 */
module FreelistsStat {
  import opened Wrappers
  import opened StrSplit
  import opened Counting

  /** The archive index URL that `main` formats from the list name. */
  const BaseUrl: string := "https://www.freelists.org/archive/"

  /** The index page as the parser sees it: the anchor texts of its first `<table>`, if it has one. */
  datatype IndexPage = IndexPage(firstTable: Option<seq<string>>)

  /**
   * A month page as the parser sees it: the text of its first `<h1>`, if
   * any, and for each `<div>` in document order the texts of its `ul > li`
   * items (the thread entries).
   */
  datatype MonthPage = MonthPage(heading: Option<string>, divItems: seq<seq<string>>)

  /** What `month_wise_stat` raises on a page of the wrong shape. */
  datatype ParseError =
    | NoHeading   // `find('h1')` gave None, so `.text` fails
    | TooFewDivs  // `select('div')[3]` is out of range

  /** The statistics of one month: `{"total_emails": ..., "senders": ...}`. */
  datatype MonthStat = MonthStat(totalEmails: nat, senders: map<string, nat>)

  /** The document written to disk: `{"years": ..., "months": [...]}`. */
  datatype Output = Output(years: map<string, nat>, months: seq<map<string, MonthStat>>)

  /** The year of an anchor or the sender of a thread: `text.split('-')[-1]`. */
  function SuffixKey(text: string): string
  {
    LastSegment(text, "-")
  }

  /** The month label of a page: `heading.split(', ')[-1]`. */
  function MonthLabel(heading: string): string
  {
    LastSegment(heading, ", ")
  }

  /** The keys derived from the texts that are not empty, in order; empty texts are skipped. */
  function DerivedKeys(texts: seq<string>): seq<string>
  {
    if texts == [] then []
    else
      var last := texts[|texts| - 1];
      DerivedKeys(texts[..|texts| - 1]) + (if last != "" then [SuffixKey(last)] else [])
  }

  /** The number of texts that are not empty. */
  function NonEmptyCount(texts: seq<string>): int
  {
    |texts| - Occurrences(texts, "")
  }

  /**
   * A key is the text after the last `-`, or the whole text when it has no
   * `-`; it never contains `-`.
   */
  lemma SuffixKeySpec(text: string)
    ensures var key := SuffixKey(text);
      && '-' !in key
      && ('-' !in text ==> key == text)
      && ('-' in text ==> |key| < |text| && text[|text| - |key| - 1] == '-' && text[|text| - |key|..] == key)
  {
    assert "-" == ['-'];
    LastSegmentChar(text, '-');
  }

  /** Whatever precedes the last `-`, the key is the text after it. */
  lemma SuffixKeyAfterLastDash(prefix: string, key: string)
    requires '-' !in key
    ensures SuffixKey(prefix + "-" + key) == key
  {
    var text := prefix + "-" + key;
    var r := SuffixKey(text);
    SuffixKeySpec(text);
    assert text[|prefix|] == '-';
    assert text[|text| - |key|..] == key;
  }

  /**
   * Whatever precedes the first `, ` that the label follows, the label is the
   * text after it when that text holds no `, ` of its own.
   */
  lemma MonthLabelAfterComma(prefix: string, month: string)
    requires !Contains(month, ", ")
    ensures MonthLabel(prefix + ", " + month) == month
  {
    var heading := prefix + ", " + month;
    var n := |prefix|;
    var r := MonthLabel(heading);
    var st := |heading| - |r|;
    assert heading[n] == ',' && heading[n + 1] == ' ';
    assert heading[n + 2..] == month;
    assert OccursAt(heading, ", ", n);
    assert Contains(heading, ", ");
    LastSegmentSpec(heading, ", ");
    assert st >= 2 && OccursAt(heading, ", ", st - 2);
    // The occurrence right before the label is the one at `n`: not one inside `month` ...
    if st >= n + 4 {
      OccursShift(heading, ", ", n + 2, st - n - 4);
    }
    // ... nor one overlapping the `, ` at `n` ...
    OccursAtChar(heading, ", ", n + 1, 0);
    if n >= 1 {
      OccursAtChar(heading, ", ", n - 1, 1);
    }
    // ... nor one before it, since the label would then contain the one at `n`.
    if st <= n {
      OccursShift(heading, ", ", st, n - st);
    }
    assert st == n + 2;
  }

  /** Keys are derived text by text: deriving over two sequences one after the other concatenates. */
  lemma {:induction false} DerivedKeysAppend(a: seq<string>, b: seq<string>)
    ensures DerivedKeys(a + b) == DerivedKeys(a) + DerivedKeys(b)
  {
    if b == [] {
      assert a + b == a;
    } else {
      var front := b[..|b| - 1];
      assert (a + b)[..|a + b| - 1] == a + front;
      DerivedKeysAppend(a, front);
    }
  }

  /** A single text yields its key, or nothing when it is empty. */
  lemma DerivedKeysSingle(text: string)
    ensures DerivedKeys([text]) == if text != "" then [SuffixKey(text)] else []
  {
    assert [text][..0] == [];
  }

  /** One key per non-empty text, and a key is derived exactly when some non-empty text yields it. */
  lemma {:induction false} DerivedKeysSpec(texts: seq<string>)
    ensures |DerivedKeys(texts)| == NonEmptyCount(texts) <= |texts|
    ensures forall y :: y in DerivedKeys(texts) <==>
      exists i :: 0 <= i < |texts| && texts[i] != "" && SuffixKey(texts[i]) == y
  {
    if texts == [] {
      return;
    }
    var front := texts[..|texts| - 1];
    var last := texts[|texts| - 1];
    assert texts == front + [last];
    DerivedKeysSpec(front);
    forall y | y in DerivedKeys(texts)
      ensures exists i :: 0 <= i < |texts| && texts[i] != "" && SuffixKey(texts[i]) == y
    {
      if y in DerivedKeys(front) {
        var i :| 0 <= i < |front| && front[i] != "" && SuffixKey(front[i]) == y;
        assert texts[i] == front[i];
      } else {
        assert texts[|texts| - 1] != "" && SuffixKey(texts[|texts| - 1]) == y;
      }
    }
    forall y | exists i :: 0 <= i < |texts| && texts[i] != "" && SuffixKey(texts[i]) == y
      ensures y in DerivedKeys(texts)
    {
      var i :| 0 <= i < |texts| && texts[i] != "" && SuffixKey(texts[i]) == y;
      if i < |front| {
        assert front[i] == texts[i];
      }
    }
    OccurrencesPositive(texts, "");
    assert Occurrences(texts, "") <= |texts| by { OccurrencesAtMost(texts, ""); }
  }

  /** A key cannot be counted more often than there are keys. */
  lemma {:induction false} OccurrencesAtMost(ks: seq<string>, k: string)
    ensures Occurrences(ks, k) <= |ks|
  {
    if ks != [] {
      OccurrencesAtMost(ks[..|ks| - 1], k);
    }
  }

  /**
   * The dictionary of key counts: its keys are exactly the keys derived from
   * non-empty texts, none contains `-`, each count is at least 1 and is the
   * number of non-empty texts with that key, and the counts add up to the
   * number of non-empty texts.
   */
  lemma KeyCountsSpec(texts: seq<string>)
    ensures var counts := Tally(DerivedKeys(texts));
      && (forall y :: y in counts <==> exists i :: 0 <= i < |texts| && texts[i] != "" && SuffixKey(texts[i]) == y)
      && (forall y :: y in counts ==> '-' !in y && counts[y] == Occurrences(DerivedKeys(texts), y) >= 1)
      && Total(counts) == NonEmptyCount(texts) <= |texts|
  {
    var keys := DerivedKeys(texts);
    DerivedKeysSpec(texts);
    TallyKeys(keys);
    TotalTally(keys);
    forall y | y in Tally(keys)
      ensures '-' !in y
    {
      var i :| 0 <= i < |texts| && texts[i] != "" && SuffixKey(texts[i]) == y;
      SuffixKeySpec(texts[i]);
    }
  }

  /**
   * The loop shared by `count_active_months` and `month_wise_stat`: for each
   * non-empty text, increment the count of its key or insert the key with
   * count 1.
   */
  method TallySuffixKeys(texts: seq<string>) returns (counts: map<string, nat>)
    ensures counts == Tally(DerivedKeys(texts))
  {
    counts := map[];
    assert DerivedKeys(texts[..0]) == [];
    for i := 0 to |texts|
      invariant counts == Tally(DerivedKeys(texts[..i]))
    {
      var text := texts[i];
      assert texts[..i + 1][..i] == texts[..i];
      assert DerivedKeys(texts[..i + 1]) ==
        DerivedKeys(texts[..i]) + (if text != "" then [SuffixKey(text)] else []);
      if text != "" {
        var key := SuffixKey(text);
        TallySnoc(DerivedKeys(texts[..i]), key);
        if key in counts {
          counts := counts[key := counts[key] + 1];
        } else {
          counts := counts[key := 1];
        }
        assert counts == Tally(DerivedKeys(texts[..i]) + [key]);
      } else {
        assert DerivedKeys(texts[..i + 1]) == DerivedKeys(texts[..i]);
      }
    }
    assert texts[..|texts|] == texts;
  }

  /** `count_active_months`: how many month links each year has in the archive index. */
  method CountActiveMonths(anchors: seq<string>) returns (yearWiseCount: map<string, nat>)
    ensures yearWiseCount == Tally(DerivedKeys(anchors))
    ensures forall y :: y in yearWiseCount <==>
      exists i :: 0 <= i < |anchors| && anchors[i] != "" && SuffixKey(anchors[i]) == y
    ensures forall y :: y in yearWiseCount ==>
      '-' !in y && yearWiseCount[y] == Occurrences(DerivedKeys(anchors), y) >= 1
    ensures Total(yearWiseCount) == NonEmptyCount(anchors)
  {
    yearWiseCount := TallySuffixKeys(anchors);
    KeyCountsSpec(anchors);
  }

  /** What `month_wise_stat` returns for a page, or the error it raises. */
  function MonthStatOf(page: MonthPage): Result<map<string, MonthStat>, ParseError>
  {
    match page.heading
    case None => Err(NoHeading)
    case Some(heading) =>
      if |page.divItems| < 4 then Err(TooFewDivs)
      else
        var threads := page.divItems[3];
        Ok(map[MonthLabel(heading) := MonthStat(|threads|, Tally(DerivedKeys(threads)))])
  }

  /**
   * `month_wise_stat`: a one-entry dictionary from the month label to the
   * number of thread entries and the per-sender thread counts.
   */
  method MonthWiseStat(page: MonthPage) returns (r: Result<map<string, MonthStat>, ParseError>)
    ensures r == MonthStatOf(page)
    ensures r.Ok? <==> page.heading.Some? && |page.divItems| >= 4
    ensures page.heading.None? ==> r == Err(NoHeading)
    ensures r.Ok? ==>
      var month := MonthLabel(page.heading.value);
      var threads := page.divItems[3];
      && r.value.Keys == {month}
      && r.value[month].totalEmails == |threads|
      && (forall s :: s in r.value[month].senders <==>
            exists i :: 0 <= i < |threads| && threads[i] != "" && SuffixKey(threads[i]) == s)
      && (forall s :: s in r.value[month].senders ==> r.value[month].senders[s] >= 1)
      && Total(r.value[month].senders) == NonEmptyCount(threads) <= r.value[month].totalEmails
  {
    if page.heading.None? {
      return Err(NoHeading);
    }
    var month := MonthLabel(page.heading.value);
    if |page.divItems| < 4 {
      return Err(TooFewDivs);
    }
    var emailThreads := page.divItems[3];
    var noOfEmails := |emailThreads|;
    var senders := TallySuffixKeys(emailThreads);
    KeyCountsSpec(emailThreads);
    r := Ok(map[month := MonthStat(noOfEmails, senders)]);
  }

  /** The URL of the archive index of a list: `BASE_URL.format(list_name)`. */
  function IndexUrl(listName: string): string
  {
    BaseUrl + listName
  }

  /** One month URL per anchor, in anchor order: the index URL, `/`, the anchor text. */
  function MonthUrls(url: string, anchors: seq<string>): (urls: seq<string>)
    ensures |urls| == |anchors|
    ensures forall i :: 0 <= i < |anchors| ==> urls[i] == url + "/" + anchors[i]
  {
    if anchors == [] then [] else [url + "/" + anchors[0]] + MonthUrls(url, anchors[1..])
  }

  /**
   * Fetching every URL and gathering the responses: all of them, in the
   * order of the URLs, or nothing when any request fails.
   */
  function FetchAll(urls: seq<string>, fetch: string -> Option<MonthPage>): (responses: Option<seq<MonthPage>>)
    ensures responses.Some? <==> forall i :: 0 <= i < |urls| ==> fetch(urls[i]).Some?
    ensures responses.Some? ==>
      |responses.value| == |urls| && forall i :: 0 <= i < |urls| ==> responses.value[i] == fetch(urls[i]).value
  {
    if urls == [] then Some([])
    else
      match (fetch(urls[0]), FetchAll(urls[1..], fetch))
      case (Some(page), Some(pages)) => Some([page] + pages)
      case _ => None
  }

  /**
   * `[month_wise_stat(p) for p in responses]`: one result per response, in
   * the same order, or the error of the first page that raises.
   */
  function CollectMonths(responses: seq<MonthPage>): (r: Result<seq<map<string, MonthStat>>, ParseError>)
    ensures r.Ok? <==> forall i :: 0 <= i < |responses| ==> MonthStatOf(responses[i]).Ok?
    ensures r.Ok? ==>
      |r.value| == |responses| && forall i :: 0 <= i < |responses| ==> r.value[i] == MonthStatOf(responses[i]).value
    ensures r.Err? ==>
      exists j :: 0 <= j < |responses| && MonthStatOf(responses[j]) == Err(r.error)
        && forall i :: 0 <= i < j ==> MonthStatOf(responses[i]).Ok?
  {
    if responses == [] then Ok([])
    else
      match MonthStatOf(responses[0])
      case Err(e) => Err(e)
      case Ok(month) =>
        match CollectMonths(responses[1..])
        case Err(e) => Err(e)
        case Ok(months) => Ok([month] + months)
  }

  /**
   * The body of `main`: fetch the index page at the list's index URL, count
   * the years of its anchors, fetch the month page of every anchor and
   * collect their statistics, in anchor order. Any failure (a request, a
   * missing table, a page of the wrong shape) leaves no output.
   * `fetchIndex` and `fetch` are the same network seen through the index
   * parser and through the month-page parser.
   */
  function Aggregate(
    listName: string, fetchIndex: string -> Option<IndexPage>, fetch: string -> Option<MonthPage>): (r: Option<Output>)
    ensures var home := fetchIndex(IndexUrl(listName));
      r.Some? <==>
      && home.Some? && home.value.firstTable.Some?
      && var anchors := home.value.firstTable.value;
         forall i :: 0 <= i < |anchors| ==>
           var page := fetch(IndexUrl(listName) + "/" + anchors[i]);
           page.Some? && MonthStatOf(page.value).Ok?
    ensures r.Some? ==>
      var anchors := fetchIndex(IndexUrl(listName)).value.firstTable.value;
      && r.value.years == Tally(DerivedKeys(anchors))
      && |r.value.months| == |anchors|
      && forall i :: 0 <= i < |anchors| ==>
           r.value.months[i] == MonthStatOf(fetch(IndexUrl(listName) + "/" + anchors[i]).value).value
  {
    var url := IndexUrl(listName);
    match fetchIndex(url)
    case None => None
    case Some(index) =>
      match index.firstTable
      case None => None
      case Some(anchors) =>
        var years := Tally(DerivedKeys(anchors));
        match FetchAll(MonthUrls(url, anchors), fetch)
        case None => None
        case Some(responses) =>
          match CollectMonths(responses)
          case Err(_) => None
          case Ok(months) => Some(Output(years, months))
  }
}
