/**
 * Worked instances of the counting core on the kind of text the archive
 * pages show: month labels, senders, years, and a run over a two-month index.
 */
module FreelistsExamples {
  import opened Wrappers
  import opened StrSplit
  import opened Counting
  import opened FreelistsStat

  /** The month label of a heading of the kind the archive pages show. */
  lemma MonthLabelExample()
    ensures MonthLabel("Archive, March-2019") == "March-2019"
  {
    assert "Archive" + ", " + "March-2019" == "Archive, March-2019";
    AbsentFirstChar("March-2019", ", ");
    MonthLabelAfterComma("Archive", "March-2019");
  }

  /** The sender of a thread entry of the kind the archive pages show. */
  lemma SenderExample()
    ensures SuffixKey("Re: hello-Jane Doe") == "Jane Doe"
  {
    assert "Re: hello" + "-" + "Jane Doe" == "Re: hello-Jane Doe";
    SuffixKeyAfterLastDash("Re: hello", "Jane Doe");
  }

  /** The year of a month link of the kind the archive index shows. */
  lemma YearExample()
    ensures SuffixKey("January-2020") == "2020"
  {
    assert "January" + "-" + "2020" == "January-2020";
    SuffixKeyAfterLastDash("January", "2020");
  }

  /** The year of a month link of 2020, whatever the month is called. */
  lemma YearOfLink(month: string)
    ensures SuffixKey(month + "-2020") == "2020"
  {
    assert month + "-2020" == month + "-" + "2020";
    SuffixKeyAfterLastDash(month, "2020");
  }

  /** Two month links of 2020 both yield the year key `2020`. */
  lemma YearKeysExample(first: string, second: string)
    ensures DerivedKeys([first + "-2020", second + "-2020"]) == ["2020", "2020"]
  {
    var a, b := first + "-2020", second + "-2020";
    YearOfLink(first);
    YearOfLink(second);
    DerivedKeysAppend([a], [b]);
    DerivedKeysSingle(a);
    DerivedKeysSingle(b);
    assert [a] + [b] == [a, b];
  }

  /** A key derived twice is counted twice. */
  lemma TallyTwiceExample()
    ensures Tally(["2020", "2020"]) == map["2020" := 2]
  {
    var keys := ["2020", "2020"];
    OccurrencesAppend(["2020"], ["2020"], "2020");
    OccurrencesSingle("2020", "2020");
    assert ["2020"] + ["2020"] == keys;
    assert Tally(keys).Keys == {"2020"};
  }

  /** Five thread entries, one of them empty, by `bob` once and by `cy` three times. */
  function Threads(subjects: seq<string>, bob: string, cy: string): seq<string>
    requires |subjects| == 4
  {
    [subjects[0] + "-" + bob, "", subjects[1] + "-" + cy, subjects[2] + "-" + cy, subjects[3] + "-" + cy]
  }

  /** Three threads by the same sender yield that sender three times. */
  lemma SameSenderKeys(a: string, b: string, c: string, cy: string)
    requires '-' !in cy
    ensures DerivedKeys([a + "-" + cy, b + "-" + cy, c + "-" + cy]) == [cy, cy, cy]
  {
    var t := [a + "-" + cy, b + "-" + cy, c + "-" + cy];
    SuffixKeyAfterLastDash(a, cy);
    SuffixKeyAfterLastDash(b, cy);
    SuffixKeyAfterLastDash(c, cy);
    DerivedKeysSingle(t[0]);
    DerivedKeysSingle(t[1]);
    DerivedKeysSingle(t[2]);
    DerivedKeysAppend([t[0], t[1]], [t[2]]);
    DerivedKeysAppend([t[0]], [t[1]]);
    assert [t[0]] + [t[1]] == [t[0], t[1]];
    assert [t[0], t[1]] + [t[2]] == t;
  }

  /** The senders of the five entries, the empty one yielding none. */
  lemma SenderKeysExample(subjects: seq<string>, bob: string, cy: string)
    requires |subjects| == 4 && '-' !in bob && '-' !in cy
    ensures DerivedKeys(Threads(subjects, bob, cy)) == [bob, cy, cy, cy]
  {
    var t := Threads(subjects, bob, cy);
    var rest := [subjects[1] + "-" + cy, subjects[2] + "-" + cy, subjects[3] + "-" + cy];
    SameSenderKeys(subjects[1], subjects[2], subjects[3], cy);
    SuffixKeyAfterLastDash(subjects[0], bob);
    DerivedKeysSingle(t[0]);
    DerivedKeysSingle("");
    DerivedKeysAppend([t[0], ""], rest);
    DerivedKeysAppend([t[0]], [""]);
    assert [t[0]] + [""] == [t[0], ""];
    assert t == [t[0], ""] + rest;
  }

  /** One thread by `bob` and three by `cy` are counted 1 and 3. */
  lemma SenderTallyExample(bob: string, cy: string)
    requires bob != cy
    ensures Tally([bob, cy, cy, cy]) == map[bob := 1, cy := 3]
  {
    var ks := [bob, cy, cy, cy];
    assert ks == [bob] + [cy, cy, cy];
    OccurrencesAppend([bob], [cy, cy, cy], bob);
    OccurrencesAppend([bob], [cy, cy, cy], cy);
    OccurrencesSingle(bob, bob);
    OccurrencesSingle(bob, cy);
    assert Occurrences([cy, cy, cy], bob) == 0 by {
      OccurrencesPositive([cy, cy, cy], bob);
    }
    assert Occurrences([cy, cy, cy], cy) == 3 by {
      assert [cy, cy, cy] == [cy] + [cy] + [cy];
      OccurrencesAppend([cy] + [cy], [cy], cy);
      OccurrencesAppend([cy], [cy], cy);
      OccurrencesSingle(cy, cy);
    }
    assert Tally(ks).Keys == {bob, cy};
  }

  /**
   * Five thread entries, one of them empty, whatever their subjects: four
   * are attributed to a sender, one to `bob` and three to `cy`.
   */
  lemma SendersExample(subjects: seq<string>, bob: string, cy: string)
    requires |subjects| == 4 && '-' !in bob && '-' !in cy && bob != cy
    ensures NonEmptyCount(Threads(subjects, bob, cy)) == 4
    ensures Tally(DerivedKeys(Threads(subjects, bob, cy))) == map[bob := 1, cy := 3]
  {
    var t := Threads(subjects, bob, cy);
    assert t == [t[0]] + [t[1]] + t[2..];
    OccurrencesAppend([t[0]] + [t[1]], t[2..], "");
    OccurrencesAppend([t[0]], [t[1]], "");
    OccurrencesSingle(t[0], "");
    OccurrencesSingle(t[1], "");
    OccurrencesPositive(t[2..], "");
    SenderKeysExample(subjects, bob, cy);
    SenderTallyExample(bob, cy);
  }

  /**
   * An index with two month links of 2020 whose pages hold 3 and 5 thread
   * entries under headings `<title>, <link text>`: the run succeeds, 2020
   * has two active months, and the month entries come in link order, each
   * keyed by its link text, with 3 and 5 emails.
   */
  lemma AggregateExample(
    first: string, second: string,
    fetchIndex: string -> Option<IndexPage>, fetch: string -> Option<MonthPage>, title: string,
    firstThreads: seq<string>, secondThreads: seq<string>)
    requires ',' !in first && ',' !in second
    requires |firstThreads| == 3 && |secondThreads| == 5
    requires fetchIndex(BaseUrl + "testlist") == Some(IndexPage(Some([first + "-2020", second + "-2020"])))
    requires fetch(BaseUrl + "testlist/" + first + "-2020") ==
      Some(MonthPage(Some(title + ", " + first + "-2020"), [[], [], [], firstThreads]))
    requires fetch(BaseUrl + "testlist/" + second + "-2020") ==
      Some(MonthPage(Some(title + ", " + second + "-2020"), [[], [], [], secondThreads]))
    ensures var r := Aggregate("testlist", fetchIndex, fetch);
      && r.Some?
      && r.value.years == map["2020" := 2]
      && |r.value.months| == 2
      && r.value.months[0].Keys == {first + "-2020"}
      && r.value.months[0][first + "-2020"].totalEmails == 3
      && r.value.months[1].Keys == {second + "-2020"}
      && r.value.months[1][second + "-2020"].totalEmails == 5
  {
    var anchors := [first + "-2020", second + "-2020"];
    var url := IndexUrl("testlist");
    assert url + "/" + anchors[0] == BaseUrl + "testlist/" + first + "-2020";
    assert url + "/" + anchors[1] == BaseUrl + "testlist/" + second + "-2020";
    assert title + ", " + first + "-2020" == title + ", " + anchors[0];
    assert title + ", " + second + "-2020" == title + ", " + anchors[1];
    AbsentFirstChar(anchors[0], ", ");
    AbsentFirstChar(anchors[1], ", ");
    MonthLabelAfterComma(title, anchors[0]);
    MonthLabelAfterComma(title, anchors[1]);
    YearKeysExample(first, second);
    TallyTwiceExample();
    var r := Aggregate("testlist", fetchIndex, fetch);
    assert r.Some?;
    assert r.value.months[0] == MonthStatOf(fetch(url + "/" + anchors[0]).value).value;
    assert r.value.months[1] == MonthStatOf(fetch(url + "/" + anchors[1]).value).value;
  }
}
