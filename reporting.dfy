/**
 * What the evaluation guarantees about its report: every printed line scores
 * one topic of the run on exactly that topic's ranked documents; no topic is
 * printed twice; which topics are printed; the range of the scores; when the
 * "amean" line has numbers; where the run id comes from; and when the run is
 * rejected as empty.
 */
module Reporting {
  import opened Basics
  import opened Compare
  import opened Fields
  import opened Entries
  import opened Metrics
  import opened Sorting
  import opened Blocks
  import opened Ingest
  import opened Evaluation

  /** The run comparator is a total preorder, as the sort needs. */
  lemma {:induction false} RunLeIsOrder()
    ensures Total(RunLe) && Transitive(RunLe)
  {
    forall a, b ensures RunLe(a, b) || RunLe(b, a) {
      RunLeTotal(a, b);
    }
    forall a, b, c | RunLe(a, b) && RunLe(b, c) ensures RunLe(a, c) {
      RunLeTransitive(a, b, c);
    }
  }

  /**
   * The run sort: a rearrangement of the run, ordered by topic ascending, then
   * score descending, then document id descending.
   */
  lemma {:induction false} RankedRun(run: seq<TrecEntry>)
    ensures var ranked := InsertionSort(run, RunLe);
      && multiset(ranked) == multiset(run)
      && forall i, j :: 0 <= i < j < |ranked| ==>
           || CmpStr(ranked[i].topic, ranked[j].topic) == Less
           || (ranked[i].topic == ranked[j].topic && ranked[i].score > ranked[j].score)
           || (ranked[i].topic == ranked[j].topic && ranked[i].score == ranked[j].score && StrLe(ranked[j].docid, ranked[i].docid))
  {
    var ranked := InsertionSort(run, RunLe);
    InsertionSortPermutes(run, RunLe);
    RunLeIsOrder();
    InsertionSortSorts(run, RunLe);
    forall i, j | 0 <= i < j < |ranked|
      ensures || CmpStr(ranked[i].topic, ranked[j].topic) == Less
              || (ranked[i].topic == ranked[j].topic && ranked[i].score > ranked[j].score)
              || (ranked[i].topic == ranked[j].topic && ranked[i].score == ranked[j].score && StrLe(ranked[j].docid, ranked[i].docid))
    {
      RunLeMeaning(ranked[i], ranked[j]);
    }
  }

  /** A run ordered by the run comparator keeps each topic together. */
  lemma {:induction false} SortedRunContiguous(run: seq<TrecEntry>)
    requires SortedBy(run, RunLe)
    ensures Contiguous(run, RunKey)
  {
    forall i, j, m | 0 <= i < j < |run| && RunKey(run[i]) == RunKey(run[j]) && i <= m <= j
      ensures RunKey(run[m]) == RunKey(run[i])
    {
      if i < m < j {
        assert RunLe(run[i], run[m]) && RunLe(run[m], run[j]);
        RunLeMeaning(run[i], run[m]);
        RunLeMeaning(run[m], run[j]);
        StrLeAntisymmetric(run[i].topic, run[m].topic);
      }
    }
  }

  /** A line printed for a closed block scores that block's topic on that block's documents. */
  lemma {:induction false} ClosedRowSource(cs: seq<Block<TrecEntry, Option<string>>>, s: Setting, m: nat) returns (i: nat)
    requires DiscountOk(s.disc)
    requires m < |ClosedRows(cs, s)|
    ensures i < |cs|
    ensures var r := ClosedRows(cs, s)[m];
      && cs[i].topic == Some(r.topic) && r.topic != "" && r.topic in s.ideal
      && r == RowFor(r.topic, Gains(s.judgments, cs[i].items), s)
    decreases |cs|
  {
    var init, b := cs[..|cs| - 1], cs[|cs| - 1];
    assert cs == init + [b];
    ClosedRowsSnoc(init, b, s);
    if m < |ClosedRows(init, s)| {
      i := ClosedRowSource(init, s, m);
    } else {
      i := |cs| - 1;
    }
  }

  /** A closed block whose topic is not empty and has an ideal DCG gets its line. */
  lemma {:induction false} ClosedRowFor(cs: seq<Block<TrecEntry, Option<string>>>, s: Setting, i: nat, t: string)
    returns (m: nat)
    requires DiscountOk(s.disc)
    requires i < |cs| && cs[i].topic == Some(t) && t != "" && t in s.ideal
    ensures m < |ClosedRows(cs, s)| && ClosedRows(cs, s)[m].topic == t
    decreases |cs|
  {
    var init, b := cs[..|cs| - 1], cs[|cs| - 1];
    assert cs == init + [b];
    ClosedRowsSnoc(init, b, s);
    if i < |init| {
      m := ClosedRowFor(init, s, i, t);
    } else {
      m := |ClosedRows(init, s)|;
    }
  }

  /** Closed blocks with different topics print lines with different topics. */
  lemma {:induction false} ClosedRowsDistinct(cs: seq<Block<TrecEntry, Option<string>>>, s: Setting)
    requires DiscountOk(s.disc)
    requires DistinctTopics(cs)
    ensures forall m, n :: 0 <= m < n < |ClosedRows(cs, s)| ==> ClosedRows(cs, s)[m].topic != ClosedRows(cs, s)[n].topic
    decreases |cs|
  {
    if cs != [] {
      var init, b := cs[..|cs| - 1], cs[|cs| - 1];
      assert cs == init + [b];
      ClosedRowsSnoc(init, b, s);
      ClosedRowsDistinct(init, s);
      var before, rows := ClosedRows(init, s), ClosedRows(cs, s);
      forall m, n | 0 <= m < n < |rows| ensures rows[m].topic != rows[n].topic {
        if n >= |before| {
          var i := ClosedRowSource(init, s, m);
          assert init[i] == cs[i];
        } else {
          assert rows[m] == before[m] && rows[n] == before[n];
        }
      }
    }
  }

  /** Where a printed line comes from: the block of the grouped run that holds its topic. */
  lemma {:induction false} RowSource(bs: seq<Block<TrecEntry, Option<string>>>, s: Setting, m: nat) returns (i: nat)
    requires DiscountOk(s.disc)
    requires bs == [] || CurrentTopic(bs, None).Some?
    requires m < |Rows(bs, s)|
    ensures i < |bs|
    ensures var r := Rows(bs, s)[m];
      && bs[i].topic == Some(r.topic) && r.topic != ""
      && r == RowFor(r.topic, Gains(s.judgments, bs[i].items), s)
      && (i < |bs| - 1 ==> r.topic in s.ideal)
  {
    var closed := ClosedRows(Closed(bs), s);
    if m < |closed| {
      i := ClosedRowSource(Closed(bs), s, m);
      assert Closed(bs)[i] == bs[i];
    } else {
      i := |bs| - 1;
    }
  }

  /** No two lines print the same topic. */
  ghost predicate TopicsOnce(rows: seq<TopicResult>) {
    forall m, n :: 0 <= m < n < |rows| ==> rows[m].topic != rows[n].topic
  }

  /** A grouped scan whose blocks have different topics prints no topic twice. */
  lemma {:induction false} RowsDistinct(bs: seq<Block<TrecEntry, Option<string>>>, s: Setting)
    requires DiscountOk(s.disc)
    requires bs == [] || CurrentTopic(bs, None).Some?
    requires DistinctTopics(bs)
    ensures TopicsOnce(Rows(bs, s))
  {
    var rows, closed := Rows(bs, s), ClosedRows(Closed(bs), s);
    assert DistinctTopics(Closed(bs)) by {
      forall i | 0 <= i < |Closed(bs)| ensures Closed(bs)[i] == bs[i] { }
    }
    ClosedRowsDistinct(Closed(bs), s);
    forall m, n | 0 <= m < n < |rows| ensures rows[m].topic != rows[n].topic {
      if n >= |closed| {
        var i := ClosedRowSource(Closed(bs), s, m);
        assert Closed(bs)[i] == bs[i] && rows[m] == closed[m];
        assert bs[|bs| - 1].topic == Some(rows[n].topic);
      } else {
        assert rows[m] == closed[m] && rows[n] == closed[n];
      }
    }
  }

  /**
   * A line scores a topic of the run: the topic is not empty, some entry of
   * the run has it, and the scores are those of the gains of all of that
   * topic's entries, in ranking order.
   */
  ghost predicate ScoresTopic(r: TopicResult, run: seq<TrecEntry>, s: Setting)
    requires DiscountOk(s.disc)
  {
    && r.topic != ""
    && Some(r.topic) in Topics(run, RunKey)
    && r == RowFor(r.topic, Gains(s.judgments, WithTopic(run, RunKey, Some(r.topic))), s)
  }

  /** On a run ordered by the run comparator, each printed line scores a topic of the run. */
  lemma {:induction false} RowScoresTopic(run: seq<TrecEntry>, s: Setting, m: nat)
    requires DiscountOk(s.disc)
    requires SortedBy(run, RunLe)
    requires m < |Rows(Group(run, RunKey, None), s)|
    ensures ScoresTopic(Rows(Group(run, RunKey, None), s)[m], run, s)
  {
    var bs := Group(run, RunKey, None);
    var r := Rows(bs, s)[m];
    var i := RowSource(bs, s, m);
    SortedRunContiguous(run);
    GroupBlockCollects(run, RunKey, None, i);
    GroupBlockNonEmpty(run, RunKey, None, i);
    WithTopicNonEmpty(run, RunKey, Some(r.topic));
  }

  /**
   * On a run ordered by the run comparator, every printed line scores a
   * topic of the run, and no topic is printed twice.
   */
  lemma {:induction false} RowsScoreTopics(run: seq<TrecEntry>, s: Setting)
    requires DiscountOk(s.disc)
    requires SortedBy(run, RunLe)
    ensures forall r :: r in Rows(Group(run, RunKey, None), s) ==> ScoresTopic(r, run, s)
    ensures TopicsOnce(Rows(Group(run, RunKey, None), s))
  {
    var rows := Rows(Group(run, RunKey, None), s);
    forall r | r in rows ensures ScoresTopic(r, run, s) {
      var m :| 0 <= m < |rows| && rows[m] == r;
      RowScoresTopic(run, s, m);
    }
    SortedRunContiguous(run);
    GroupContiguous(run, RunKey, None);
    RowsDistinct(Group(run, RunKey, None), s);
  }

  /** The lines' topics strictly ascend: each line's topic sorts before every later line's. */
  ghost predicate InTopicOrder(rows: seq<TopicResult>) {
    forall m, n :: 0 <= m < n < |rows| ==> CmpStr(rows[m].topic, rows[n].topic) == Less
  }

  /** The block labels strictly ascend: all are topics, and each sorts before every later one. */
  ghost predicate BlocksAscend(bs: seq<Block<TrecEntry, Option<string>>>) {
    forall i, j :: 0 <= i < j < |bs| ==>
      bs[i].topic.Some? && bs[j].topic.Some? && CmpStr(bs[i].topic.value, bs[j].topic.value) == Less
  }

  /** The run scan's keys in string order; `None`, which no entry has, is related to nothing. */
  predicate KeyLe(a: Option<string>, b: Option<string>) {
    a.Some? && b.Some? && StrLe(a.value, b.value)
  }

  /** A run ordered by the run comparator is scanned topic by topic, in ascending topic order. */
  lemma {:induction false} SortedRunBlocksAscend(run: seq<TrecEntry>)
    requires SortedBy(run, RunLe)
    ensures BlocksAscend(Group(run, RunKey, None))
  {
    var bs := Group(run, RunKey, None);
    SortedRunContiguous(run);
    assert NoEmptyTopic(run, RunKey, None);
    forall i, j | 0 <= i < j < |run| ensures KeyLe(RunKey(run[i]), RunKey(run[j])) {
      assert RunLe(run[i], run[j]);
      RunLeMeaning(run[i], run[j]);
    }
    GroupOrdered(run, RunKey, None, KeyLe);
    GroupContiguous(run, RunKey, None);
    forall i, j | 0 <= i < j < |bs|
      ensures bs[i].topic.Some? && bs[j].topic.Some? && CmpStr(bs[i].topic.value, bs[j].topic.value) == Less
    {
      assert KeyLe(bs[i].topic, bs[j].topic);
    }
  }

  /** Closed blocks in ascending topic order print their lines in ascending topic order. */
  lemma {:induction false} ClosedRowsAscend(cs: seq<Block<TrecEntry, Option<string>>>, s: Setting)
    requires DiscountOk(s.disc)
    requires BlocksAscend(cs)
    ensures InTopicOrder(ClosedRows(cs, s))
    decreases |cs|
  {
    if cs != [] {
      var init, b := cs[..|cs| - 1], cs[|cs| - 1];
      assert BlocksAscend(init) by {
        forall i | 0 <= i < |init| ensures init[i] == cs[i] { }
      }
      ClosedRowsAscend(init, s);
      var before, rows := ClosedRows(init, s), ClosedRows(cs, s);
      assert rows[..|before|] == before && |rows| <= |before| + 1;
      assert |rows| == |before| + 1 ==> b.topic == Some(rows[|before|].topic);
      forall m, n | 0 <= m < n < |rows| ensures CmpStr(rows[m].topic, rows[n].topic) == Less {
        assert rows[m] == before[m];
        if n >= |before| {
          var i := ClosedRowSource(init, s, m);
          assert init[i] == cs[i];
        } else {
          assert rows[n] == before[n];
        }
      }
    }
  }

  /** Blocks in ascending topic order print their lines, the last block's included, in ascending topic order. */
  lemma {:induction false} RowsAscend(bs: seq<Block<TrecEntry, Option<string>>>, s: Setting)
    requires DiscountOk(s.disc)
    requires BlocksAscend(bs)
    ensures InTopicOrder(Rows(bs, s))
  {
    var rows, closed := Rows(bs, s), ClosedRows(Closed(bs), s);
    assert BlocksAscend(Closed(bs)) by {
      forall i | 0 <= i < |Closed(bs)| ensures Closed(bs)[i] == bs[i] { }
    }
    ClosedRowsAscend(Closed(bs), s);
    forall m, n | 0 <= m < n < |rows| ensures CmpStr(rows[m].topic, rows[n].topic) == Less {
      if n >= |closed| {
        var i := ClosedRowSource(Closed(bs), s, m);
        assert Closed(bs)[i] == bs[i] && rows[m] == closed[m];
        assert bs[|bs| - 1].topic == Some(rows[n].topic);
      } else {
        assert rows[m] == closed[m] && rows[n] == closed[n];
      }
    }
  }

  /**
   * On a run ordered by the run comparator, the lines come in the order the
   * topics first appear in it, which is ascending topic order.
   */
  lemma {:induction false} RowsInTopicOrder(run: seq<TrecEntry>, s: Setting)
    requires DiscountOk(s.disc)
    requires SortedBy(run, RunLe)
    ensures InTopicOrder(Rows(Group(run, RunKey, None), s))
  {
    SortedRunBlocksAscend(run);
    RowsAscend(Group(run, RunKey, None), s);
  }

  /** A printed line's topic is a non-empty topic of the run that has an ideal DCG or is the run's last topic. */
  lemma {:induction false} PrintedTopicQualifies(run: seq<TrecEntry>, s: Setting, m: nat)
    requires DiscountOk(s.disc)
    requires SortedBy(run, RunLe)
    requires m < |Rows(Group(run, RunKey, None), s)|
    ensures run != []
    ensures var t := Rows(Group(run, RunKey, None), s)[m].topic;
      t != "" && Some(t) in Topics(run, RunKey) && (t in s.ideal || t == run[|run| - 1].topic)
  {
    var bs := Group(run, RunKey, None);
    var i := RowSource(bs, s, m);
    RowScoresTopic(run, s, m);
  }

  /** A non-empty topic of the run that has an ideal DCG, or is the run's last topic, is printed. */
  lemma {:induction false} QualifyingTopicPrinted(run: seq<TrecEntry>, s: Setting, t: string) returns (m: nat)
    requires DiscountOk(s.disc)
    requires SortedBy(run, RunLe)
    requires t != "" && Some(t) in Topics(run, RunKey)
    requires run != [] && (t in s.ideal || t == run[|run| - 1].topic)
    ensures m < |Rows(Group(run, RunKey, None), s)| && Rows(Group(run, RunKey, None), s)[m].topic == t
  {
    var bs := Group(run, RunKey, None);
    SortedRunContiguous(run);
    assert NoEmptyTopic(run, RunKey, None);
    var i := TopicBlock(run, RunKey, None, Some(t));
    if i < |bs| - 1 {
      GroupBlocksDiffer(run, RunKey, None, i, |bs| - 1);
      m := ClosedBlockPrinted(bs, s, i, t);
    } else {
      m := LastBlockPrinted(bs, s, t);
    }
  }

  /** The block still open at the end gets a printed row when its topic is not empty. */
  lemma LastBlockPrinted(bs: seq<Block<TrecEntry, Option<string>>>, s: Setting, t: string) returns (m: nat)
    requires DiscountOk(s.disc)
    requires bs != [] && bs[|bs| - 1].topic == Some(t) && t != ""
    ensures m < |Rows(bs, s)| && Rows(bs, s)[m].topic == t
  {
    m := |ClosedRows(Closed(bs), s)|;
  }

  /** A closed block with a non-empty topic that has an ideal DCG gets a printed row. */
  lemma ClosedBlockPrinted(bs: seq<Block<TrecEntry, Option<string>>>, s: Setting, i: nat, t: string) returns (m: nat)
    requires DiscountOk(s.disc)
    requires i < |bs| - 1 && bs[i].topic == Some(t) && t != "" && t in s.ideal
    ensures m < |Rows(bs, s)| && Rows(bs, s)[m].topic == t
  {
    assert Closed(bs)[i] == bs[i];
    m := ClosedRowFor(Closed(bs), s, i, t);
    assert Rows(bs, s)[m] == ClosedRows(Closed(bs), s)[m];
  }

  /**
   * Which topics get a line, on a run ordered by the run comparator: exactly
   * the non-empty topics of the run that have an ideal DCG, and the last
   * topic of the run whether it has one or not, since the final flush does not
   * look it up before printing.
   */
  lemma {:induction false} PrintedTopics(run: seq<TrecEntry>, s: Setting, t: string)
    requires DiscountOk(s.disc)
    requires SortedBy(run, RunLe)
    ensures (exists r :: r in Rows(Group(run, RunKey, None), s) && r.topic == t) <==>
      (run != [] && t != "" && Some(t) in Topics(run, RunKey) && (t in s.ideal || t == run[|run| - 1].topic))
  {
    var rows := Rows(Group(run, RunKey, None), s);
    if r :| r in rows && r.topic == t {
      var m :| 0 <= m < |rows| && rows[m] == r;
      PrintedTopicQualifies(run, s, m);
    }
    if run != [] && t != "" && Some(t) in Topics(run, RunKey) && (t in s.ideal || t == run[|run| - 1].topic) {
      var m := QualifyingTopicPrinted(run, s, t);
      assert rows[m] in rows;
    }
  }

  /** Gains looked up in a table whose values are at most `m` are grades at most `m`. */
  lemma {:induction false} GainsAtMost(judgments: map<string, int>, items: seq<TrecEntry>, m: nat)
    requires forall k :: k in judgments ==> judgments[k] <= m
    ensures GradesAtMost(Gains(judgments, items), m)
  {
    GainsMeaning(judgments, items);
  }

  /** No grade above the largest one: NDCG is not negative and ERR lies in [0, 1). */
  lemma {:induction false} RowForBounds(topic: string, g: seq<nat>, s: Setting)
    requires DiscountOk(s.disc)
    requires GradesAtMost(g, s.maxJudgment)
    ensures 0.0 <= RowFor(topic, g, s).ndcg
    ensures 0.0 <= RowFor(topic, g, s).err < 1.0
  {
    ErrBounds(s.cutoff, g, s.maxJudgment);
    var ideal := if topic in s.ideal then s.ideal[topic] else 0.0;
    if ideal > 0.0 {
      DivNonneg(Dcg(s.cutoff, g, s.disc), ideal);
    }
  }

  /** Every line of a scan whose judgments do not exceed the largest grade has NDCG >= 0 and ERR in [0, 1). */
  lemma {:induction false} RowsBounded(bs: seq<Block<TrecEntry, Option<string>>>, s: Setting)
    requires DiscountOk(s.disc)
    requires bs == [] || CurrentTopic(bs, None).Some?
    requires forall k :: k in s.judgments ==> s.judgments[k] <= s.maxJudgment
    ensures forall r :: r in Rows(bs, s) ==> 0.0 <= r.ndcg && 0.0 <= r.err < 1.0
  {
    var rows := Rows(bs, s);
    forall r | r in rows ensures 0.0 <= r.ndcg && 0.0 <= r.err < 1.0 {
      var m :| 0 <= m < |rows| && rows[m] == r;
      var i := RowSource(bs, s, m);
      GainsAtMost(s.judgments, bs[i].items, s.maxJudgment);
      RowForBounds(r.topic, Gains(s.judgments, bs[i].items), s);
    }
  }

  /** Totals of lines with NDCG >= 0 and ERR in [0, 1): both are not negative, and the ERR total is below the count. */
  lemma {:induction false} TotalsBounded(rows: seq<TopicResult>)
    requires forall r :: r in rows ==> 0.0 <= r.ndcg && 0.0 <= r.err < 1.0
    ensures 0.0 <= NdcgTotal(rows)
    ensures 0.0 <= ErrTotal(rows) && (rows != [] ==> ErrTotal(rows) < |rows| as real)
    decreases |rows|
  {
    if rows != [] {
      var init := rows[..|rows| - 1];
      assert forall r :: r in init ==> r in rows;
      assert rows[|rows| - 1] in rows;
      TotalsBounded(init);
    }
  }

  /** A mean of a non-negative total below its count lies in [0, 1). */
  lemma {:induction false} MeanBelowOne(total: real, count: nat)
    requires count > 0 && 0.0 <= total < count as real
    ensures 0.0 <= total / count as real < 1.0
  {
    QuotientBelowOne(total, count as real);
  }

  /** The judgments read keep every relevance within [0, the largest relevance read]. */
  lemma {:induction false} SettingBounded(qf: QrelFile, qrelLines: seq<string>, cutoff: nat, disc: nat -> real)
    requires DiscountOk(disc)
    requires QrelsOf(qrelLines) == Success(qf)
    ensures forall k :: k in SettingOf(qf, cutoff, disc).judgments ==>
      0 <= SettingOf(qf, cutoff, disc).judgments[k] <= qf.maxJudgment
  {
    var qs := ParseLines(qrelLines, QrelLine).value;
    var qrels := InsertionSort(qf.qrels, QrelLe);
    InsertionSortPermutes(qf.qrels, QrelLe);
    PositiveMeaning(qs);
    MaxRelevanceMeaning(qs);
    forall i | 0 <= i < |qrels| ensures qrels[i].relevance <= qf.maxJudgment {
      assert qrels[i] in multiset(qrels);
      assert qrels[i] in qs;
    }
    JudgmentTableBounded(qrels, qf.maxJudgment);
  }

  /**
   * The scores of an evaluation's report: each line has NDCG >= 0 and ERR in
   * [0, 1), and so do the means on the "amean" line when it has numbers.
   */
  lemma {:induction false} ReportBounded(qrelLines: seq<string>, runLines: seq<string>, cutoff: nat,
                                         disc: nat -> real, parseScore: string -> Option<real>)
    requires DiscountOk(disc)
    requires Outcome(qrelLines, runLines, cutoff, disc, parseScore).Success?
    ensures var rep := Outcome(qrelLines, runLines, cutoff, disc, parseScore).value;
      && (forall r :: r in rep.rows ==> 0.0 <= r.ndcg && 0.0 <= r.err < 1.0)
      && (rep.ndcgMean.Some? ==> 0.0 <= rep.ndcgMean.value)
      && (rep.errMean.Some? ==> 0.0 <= rep.errMean.value < 1.0)
  {
    var qf := QrelsOf(qrelLines).value;
    var run := ParseLines(runLines, RunParser(parseScore)).value;
    var ranked := InsertionSort(run, RunLe);
    var s := SettingOf(qf, cutoff, disc);
    var bs := Group(ranked, RunKey, None);
    var rows := Rows(bs, s);
    SettingBounded(qf, qrelLines, cutoff, disc);
    RowsBounded(bs, s);
    TotalsBounded(rows);
    if rows != [] {
      DivNonneg(NdcgTotal(rows), |rows| as real);
      MeanBelowOne(ErrTotal(rows), |rows|);
    }
  }

  /**
   * The "amean" line has numbers exactly when some entry of the run has a
   * topic that is not empty; a run whose topics are all empty prints no topic
   * line, and its means are 0/0.
   */
  lemma {:induction false} MeansDefined(ranked: seq<TrecEntry>, s: Setting)
    requires DiscountOk(s.disc)
    requires ranked != [] && SortedBy(ranked, RunLe)
    ensures ReportOf(ranked, s).ndcgMean.Some? <==> exists e :: e in ranked && e.topic != ""
    ensures ReportOf(ranked, s).errMean.Some? <==> exists e :: e in ranked && e.topic != ""
  {
    RowsNeedTopic(ranked, s);
    TopicGivesRows(ranked, s);
  }

  /** A printed row means some entry of the sorted run has a non-empty topic. */
  lemma RowsNeedTopic(ranked: seq<TrecEntry>, s: Setting)
    requires DiscountOk(s.disc)
    requires ranked != [] && SortedBy(ranked, RunLe)
    ensures Rows(Group(ranked, RunKey, None), s) != [] ==> exists e :: e in ranked && e.topic != ""
  {
    var rows := Rows(Group(ranked, RunKey, None), s);
    if rows != [] {
      PrintedTopicQualifies(ranked, s, 0);
      TopicsIndex(ranked, RunKey, Some(rows[0].topic));
      var j :| 0 <= j < |ranked| && RunKey(ranked[j]) == Some(rows[0].topic);
      assert ranked[j] in ranked;
    }
  }

  /** An entry with a non-empty topic in the sorted run means a row is printed. */
  lemma TopicGivesRows(ranked: seq<TrecEntry>, s: Setting)
    requires DiscountOk(s.disc)
    requires ranked != [] && SortedBy(ranked, RunLe)
    ensures (exists e :: e in ranked && e.topic != "") ==> Rows(Group(ranked, RunKey, None), s) != []
  {
    var bs := Group(ranked, RunKey, None);
    if e :| e in ranked && e.topic != "" {
      LastTopicNonEmpty(ranked, e);
      assert CurrTopic(bs) == ranked[|ranked| - 1].topic;
    }
  }

  /** In a sorted run, the last entry has a non-empty topic when any entry has one. */
  lemma LastTopicNonEmpty(ranked: seq<TrecEntry>, e: TrecEntry)
    requires SortedBy(ranked, RunLe)
    requires e in ranked && e.topic != ""
    ensures ranked[|ranked| - 1].topic != ""
  {
    var last := ranked[|ranked| - 1];
    var j :| 0 <= j < |ranked| && ranked[j] == e;
    assert StrLe(e.topic, last.topic) by {
      if j < |ranked| - 1 {
        assert RunLe(e, last);
        RunLeMeaning(e, last);
      }
    }
    if last.topic == "" {
      NothingBelowEmpty(e.topic);
    }
  }

  /** A successful evaluation reports on the run sorted by the run comparator, scored against the judgments read. */
  lemma {:induction false} OutcomeReport(qrelLines: seq<string>, runLines: seq<string>, cutoff: nat,
                      disc: nat -> real, parseScore: string -> Option<real>, run: seq<TrecEntry>)
    requires DiscountOk(disc)
    requires ParseLines(runLines, RunParser(parseScore)) == Success(run)
    requires Outcome(qrelLines, runLines, cutoff, disc, parseScore).Success?
    ensures QrelsOf(qrelLines).Success? && InsertionSort(run, RunLe) != []
    ensures Outcome(qrelLines, runLines, cutoff, disc, parseScore).value ==
      ReportOf(InsertionSort(run, RunLe), SettingOf(QrelsOf(qrelLines).value, cutoff, disc))
  {
  }

  /**
   * The first entry of the sorted run has the least topic of the run and,
   * within that topic, the highest score.
   */
  lemma {:induction false} FirstRankedLeads(run: seq<TrecEntry>)
    requires InsertionSort(run, RunLe) != []
    ensures var e := InsertionSort(run, RunLe)[0];
      && e in run
      && forall x :: x in run ==> StrLe(e.topic, x.topic) && (x.topic == e.topic ==> e.score >= x.score)
  {
    var ranked := InsertionSort(run, RunLe);
    InsertionSortPermutes(run, RunLe);
    RunLeIsOrder();
    InsertionSortSorts(run, RunLe);
    var e := ranked[0];
    assert e in multiset(ranked);
    forall x | x in run ensures StrLe(e.topic, x.topic) && (x.topic == e.topic ==> e.score >= x.score) {
      assert x in multiset(ranked);
      var j :| 0 <= j < |ranked| && ranked[j] == x;
      if j > 0 {
        assert RunLe(e, x);
        RunLeMeaning(e, x);
      }
    }
  }

  /**
   * Where the run id comes from: an entry of the run that the run comparator
   * puts first, that is one with the least topic and, within that topic, the
   * highest score.
   */
  lemma {:induction false} RunIdOfFirstRanked(qrelLines: seq<string>, runLines: seq<string>, cutoff: nat,
                           disc: nat -> real, parseScore: string -> Option<real>, run: seq<TrecEntry>)
    requires DiscountOk(disc)
    requires ParseLines(runLines, RunParser(parseScore)) == Success(run)
    requires Outcome(qrelLines, runLines, cutoff, disc, parseScore).Success?
    ensures exists e :: (e in run && e.runid == Outcome(qrelLines, runLines, cutoff, disc, parseScore).value.runid &&
      forall x :: x in run ==> StrLe(e.topic, x.topic) && (x.topic == e.topic ==> e.score >= x.score))
  {
    OutcomeReport(qrelLines, runLines, cutoff, disc, parseScore, run);
    FirstRankedLeads(run);
  }

  /** An evaluation stops for want of a run id exactly when both files read cleanly and the run has no entry. */
  lemma {:induction false} EmptyRunRejected(qrelLines: seq<string>, runLines: seq<string>, cutoff: nat,
                                            disc: nat -> real, parseScore: string -> Option<real>)
    requires DiscountOk(disc)
    ensures Outcome(qrelLines, runLines, cutoff, disc, parseScore) == Failure(EmptyRun) <==>
      QrelsOf(qrelLines).Success? && ParseLines(runLines, RunParser(parseScore)) == Success([])
  {
    match ParseLines(runLines, RunParser(parseScore))
    case Failure(_) =>
    case Success(run) =>
      InsertionSortPermutes(run, RunLe);
      assert |multiset(InsertionSort(run, RunLe))| == |multiset(run)|;
  }

  /**
   * The "amean" line of a successful evaluation has numbers exactly when some
   * entry of the run as read has a topic that is not empty.
   */
  lemma {:induction false} MeansDefinedForRun(qrelLines: seq<string>, runLines: seq<string>, cutoff: nat,
                           disc: nat -> real, parseScore: string -> Option<real>, run: seq<TrecEntry>)
    requires DiscountOk(disc)
    requires ParseLines(runLines, RunParser(parseScore)) == Success(run)
    requires Outcome(qrelLines, runLines, cutoff, disc, parseScore).Success?
    ensures Outcome(qrelLines, runLines, cutoff, disc, parseScore).value.ndcgMean.Some? <==> exists e :: e in run && e.topic != ""
    ensures Outcome(qrelLines, runLines, cutoff, disc, parseScore).value.errMean.Some? <==> exists e :: e in run && e.topic != ""
  {
    var ranked := InsertionSort(run, RunLe);
    OutcomeReport(qrelLines, runLines, cutoff, disc, parseScore, run);
    RunLeIsOrder();
    InsertionSortSorts(run, RunLe);
    InsertionSortPermutes(run, RunLe);
    MeansDefined(ranked, SettingOf(QrelsOf(qrelLines).value, cutoff, disc));
    assert forall e :: e in run <==> e in multiset(ranked);
  }

  /**
   * A topic ranked in its ideal order scores NDCG 1: when the gains of its
   * ranked documents are its judged relevances in the order the qrels sort
   * leaves them, and its ideal DCG is positive.
   */
  lemma {:induction false} IdealOrderScoresOne(qrels: seq<QrelEntry>, s: Setting, t: string)
    requires DiscountOk(s.disc)
    requires SortedBy(qrels, QrelLe) && NoEmptyTopic(qrels, QrelTopic, "")
    requires t in Topics(qrels, QrelTopic)
    requires s.ideal == IdealTable(qrels, s.cutoff, s.disc)
    requires t in s.ideal && s.ideal[t] > 0.0
    ensures RowFor(t, Rels(WithTopic(qrels, QrelTopic, t)), s).ndcg == 1.0
  {
    IdealTableValues(qrels, s.cutoff, s.disc, t);
    var d := Dcg(s.cutoff, Rels(WithTopic(qrels, QrelTopic, t)), s.disc);
    assert s.ideal[t] == d;
    DivSelf(d);
  }

  /**
   * A run that ranks a topic in ideal order scores NDCG 1 for it: when the
   * gains the run's entries of topic `t` get from the judgments are the
   * topic's judged relevances, highest first, and `t` has a positive ideal
   * DCG, then `t` is printed, and its line has NDCG 1.
   */
  lemma {:induction false} IdealRankingScoresOne(qrels: seq<QrelEntry>, run: seq<TrecEntry>, s: Setting, t: string)
    requires DiscountOk(s.disc)
    requires SortedBy(qrels, QrelLe) && NoEmptyTopic(qrels, QrelTopic, "")
    requires s.ideal == IdealTable(qrels, s.cutoff, s.disc)
    requires SortedBy(run, RunLe)
    requires t in s.ideal && s.ideal[t] > 0.0
    requires multiset(Gains(s.judgments, WithTopic(run, RunKey, Some(t)))) == multiset(Rels(WithTopic(qrels, QrelTopic, t)))
    requires NonIncreasing(Gains(s.judgments, WithTopic(run, RunKey, Some(t))))
    ensures exists r :: r in Rows(Group(run, RunKey, None), s) && r.topic == t
    ensures forall r :: r in Rows(Group(run, RunKey, None), s) && r.topic == t ==> r.ndcg == 1.0
  {
    var rows := Rows(Group(run, RunKey, None), s);
    var g := Gains(s.judgments, WithTopic(run, RunKey, Some(t)));
    var ideal := Rels(WithTopic(qrels, QrelTopic, t));
    IdealTableKeys(qrels, s.cutoff, s.disc);
    IdealTableValues(qrels, s.cutoff, s.disc, t);
    SortedTopicRels(qrels, t);
    NonIncreasingUnique(g, ideal);
    assert ideal != [];
    GainsMeaning(s.judgments, WithTopic(run, RunKey, Some(t)));
    WithTopicNonEmpty(run, RunKey, Some(t));
    var m := QualifyingTopicPrinted(run, s, t);
    assert rows[m] in rows;
    DivSelf(s.ideal[t]);
    forall r | r in rows && r.topic == t ensures r.ndcg == 1.0 {
      var n :| 0 <= n < |rows| && rows[n] == r;
      RowScoresTopic(run, s, n);
    }
  }

  /**
   * Without the no-empty-topic condition the score can pass 1. With the
   * judgments ("", d1, 1) and ("5", d2, 2) at cutoff 1, topic "5" has its own
   * relevances [2] but an ideal DCG of 1, the absorbed grade's; ranking its
   * document first then scores NDCG 3.
   */
  lemma EmptyTopicNdcgAboveOne(s: Setting)
    requires DiscountOk(s.disc) && s.cutoff == 1
    requires s.ideal == IdealTable([QrelEntry("", "d1", 1), QrelEntry("5", "d2", 2)], 1, s.disc)
    ensures Rels(WithTopic([QrelEntry("", "d1", 1), QrelEntry("5", "d2", 2)], QrelTopic, "5")) == [2]
    ensures RowFor("5", [2], s).ndcg == 3.0
  {
    var q1, q2 := QrelEntry("", "d1", 1), QrelEntry("5", "d2", 2);
    assert Rels(WithTopic([q1, q2], QrelTopic, "5")) == [2] by {
      assert [q1, q2][..1] == [q1] && [q1][..0] == [];
      assert WithTopic([q1, q2], QrelTopic, "5") == [q2];
      assert [q2][..0] == [];
    }
    assert s.ideal == map["5" := 1.0] by { EmptyTopicExample(s.disc); }
    assert Dcg(1, [2], s.disc) == 3.0 by {
      DcgFirst([2], s.disc);
      Pow2Three();
    }
  }

  /** With a cutoff of 1, DCG is the gain of the first grade. */
  lemma DcgFirst(g: seq<nat>, disc: nat -> real)
    requires DiscountOk(disc) && g != []
    ensures Dcg(1, g, disc) == Gain(g[0]) as real
  {
    assert Take(g, 1) == [g[0]];
    assert [g[0]][..0] == [];
    assert DcgSum([g[0]], disc) == Gain(g[0]) as real / disc(0);
  }

  // ---------------------------------------------------------------------
  // One topic ranked in its ideal order, from the lines of the two files

  /** Topic T1 judges d1, d2 and d3 with grades 3, 2 and 1. */
  const IdealQrelLines: seq<string> := ["T1 0 d1 3", "T1 0 d2 2", "T1 0 d3 1"]

  /** Run R ranks d1, d2 and d3 in that order, with scores 3, 2 and 1. */
  const IdealRunLines: seq<string> := ["T1 Q0 d1 1 3 R", "T1 Q0 d2 2 2 R", "T1 Q0 d3 3 1 R"]

  const IdealJudged: seq<QrelEntry> := [QrelEntry("T1", "d1", 3), QrelEntry("T1", "d2", 2), QrelEntry("T1", "d3", 1)]

  const IdealRanked: seq<TrecEntry> := [TrecEntry("T1", "d1", 3.0, "R"), TrecEntry("T1", "d2", 2.0, "R"), TrecEntry("T1", "d3", 1.0, "R")]

  /** A judgments line written as `topic 0 docid grade` reads as that judgment. */
  lemma QrelLineReads(line: string, q: QrelEntry, grade: string)
    requires NoSpace(q.topic) && NoSpace(q.docid) && I32Min <= q.relevance <= I32Max
    requires grade == ShowInt(q.relevance) && line == q.topic + " 0 " + q.docid + " " + grade
    ensures QrelLine(line) == Success(q)
  {
    JoinFour(q.topic, "0", q.docid, grade, ' ');
    assert line == q.topic + [' '] + "0" + [' '] + q.docid + [' '] + grade;
    QrelLineRoundTrip(q, "0");
  }

  /** Each judgments line reads as its judgment. */
  lemma IdealQrelLine(i: nat)
    requires i < 3
    ensures QrelLine(IdealQrelLines[i]) == Success(IdealJudged[i])
  {
    if i == 0 {
      QrelLineReads(IdealQrelLines[0], IdealJudged[0], "3");
    } else if i == 1 {
      QrelLineReads(IdealQrelLines[1], IdealJudged[1], "2");
    } else {
      QrelLineReads(IdealQrelLines[2], IdealJudged[2], "1");
    }
  }

  /** The three judgments read back as written, all kept, with 3 the largest grade. */
  lemma IdealQrelsRead()
    ensures QrelsOf(IdealQrelLines) == Success(QrelFile(IdealJudged, 3))
  {
    IdealJudgedKept(IdealJudged);
    IdealQrelsParsed();
    QrelsOfParsed(IdealQrelLines, IdealJudged);
  }

  /** Lines that all parse keep the positive judgments and the largest relevance. */
  lemma QrelsOfParsed(lines: seq<string>, qs: seq<QrelEntry>)
    requires ParseLines(lines, QrelLine) == Success(qs)
    ensures QrelsOf(lines) == Success(QrelFile(Positive(qs), MaxRelevance(qs)))
  {
  }

  /** Positive grades of at most 3, one of them 3: all are kept, and 3 is the largest. */
  lemma IdealJudgedKept(qs: seq<QrelEntry>)
    requires qs != [] && qs[0].relevance == 3
    requires forall i :: 0 <= i < |qs| ==> 0 < qs[i].relevance <= 3
    ensures Positive(qs) == qs && MaxRelevance(qs) == 3
  {
    PositiveAll(qs);
    MaxRelevanceMeaning(qs);
  }

  lemma IdealQrelsParsed()
    ensures ParseLines(IdealQrelLines, QrelLine) == Success(IdealJudged)
  {
    forall i | 0 <= i < 3 ensures QrelLine(IdealQrelLines[i]) == Success(IdealJudged[i]) {
      IdealQrelLine(i);
    }
    ParseLinesMeaning(IdealQrelLines, QrelLine);
    assert ParseLines(IdealQrelLines, QrelLine).value == IdealJudged;
  }

  /** The judgment keys of the three documents, which are all different. */
  lemma IdealKeys()
    ensures Key("T1", "d1") == "T1:d1" && Key("T1", "d2") == "T1:d2" && Key("T1", "d3") == "T1:d3"
    ensures "T1:d1" != "T1:d2" && "T1:d1" != "T1:d3" && "T1:d2" != "T1:d3"
  {
    assert "T1:d1"[4] != "T1:d2"[4] && "T1:d1"[4] != "T1:d3"[4] && "T1:d2"[4] != "T1:d3"[4];
  }

  /** A run line written as `topic Q0 docid rank score runid` reads as that entry when the score text parses as its score. */
  lemma RunLineReads(line: string, e: TrecEntry, rank: string, score: string, parseScore: string -> Option<real>)
    requires NoSpace(e.topic) && NoSpace(e.docid) && NoSpace(rank) && NoSpace(score) && NoSpace(e.runid)
    requires parseScore(score) == Some(e.score)
    requires line == e.topic + " Q0 " + e.docid + " " + rank + " " + score + " " + e.runid
    ensures RunParser(parseScore)(line) == Success(e)
  {
    JoinSix(e.topic, "Q0", e.docid, rank, score, e.runid, ' ');
    assert line == e.topic + [' '] + "Q0" + [' '] + e.docid + [' '] + rank + [' '] + score + [' '] + e.runid;
    TrecLineRoundTrip(e, "Q0", rank, score, parseScore);
  }

  /** Each run line reads as its entry, given that the scores parse as 3, 2 and 1. */
  lemma IdealRunLine(parseScore: string -> Option<real>, i: nat)
    requires parseScore("3") == Some(3.0) && parseScore("2") == Some(2.0) && parseScore("1") == Some(1.0)
    requires i < 3
    ensures RunParser(parseScore)(IdealRunLines[i]) == Success(IdealRanked[i])
  {
    if i == 0 {
      RunLineReads(IdealRunLines[0], IdealRanked[0], "1", "3", parseScore);
    } else if i == 1 {
      RunLineReads(IdealRunLines[1], IdealRanked[1], "2", "2", parseScore);
    } else {
      RunLineReads(IdealRunLines[2], IdealRanked[2], "3", "1", parseScore);
    }
  }

  /** The three run lines read back as written. */
  lemma IdealRunRead(parseScore: string -> Option<real>)
    requires parseScore("3") == Some(3.0) && parseScore("2") == Some(2.0) && parseScore("1") == Some(1.0)
    ensures ParseLines(IdealRunLines, RunParser(parseScore)) == Success(IdealRanked)
  {
    forall i | 0 <= i < 3 ensures RunParser(parseScore)(IdealRunLines[i]) == Success(IdealRanked[i]) {
      IdealRunLine(parseScore, i);
    }
    ParseLinesMeaning(IdealRunLines, RunParser(parseScore));
    assert ParseLines(IdealRunLines, RunParser(parseScore)).value == IdealRanked;
  }

  /** Both files are already in the order their sorts put them in. */
  lemma IdealAlreadySorted()
    ensures InsertionSort(IdealJudged, QrelLe) == IdealJudged
    ensures InsertionSort(IdealRanked, RunLe) == IdealRanked
  {
    assert InsertionSort(IdealJudged, QrelLe) == IdealJudged by {
      OneTopicByGrade(IdealJudged);
      InsertionSortSorted(IdealJudged, QrelLe);
    }
    assert InsertionSort(IdealRanked, RunLe) == IdealRanked by {
      OneTopicByScore(IdealRanked);
      InsertionSortSorted(IdealRanked, RunLe);
    }
  }

  /** Judgments of one topic listed by falling grade are in the judgments sort's order. */
  lemma OneTopicByGrade(qs: seq<QrelEntry>)
    requires forall i, j :: 0 <= i < j < |qs| ==> qs[i].topic == qs[j].topic && qs[i].relevance >= qs[j].relevance
    ensures SortedBy(qs, QrelLe)
  {
    forall i, j | 0 <= i < j < |qs| ensures QrelLe(qs[i], qs[j]) {
      QrelLeMeaning(qs[i], qs[j]);
    }
  }

  /** Entries of one topic listed by strictly falling score are in the run sort's order. */
  lemma OneTopicByScore(run: seq<TrecEntry>)
    requires forall i, j :: 0 <= i < j < |run| ==> run[i].topic == run[j].topic && run[i].score > run[j].score
    ensures SortedBy(run, RunLe)
  {
    forall i, j | 0 <= i < j < |run| ensures RunLe(run[i], run[j]) {
      RunLeMeaning(run[i], run[j]);
    }
  }

  /** A single block with a real topic enters the ideal-DCG table alone. */
  lemma OneBlockTable(t: string, qs: seq<QrelEntry>, k: nat, disc: nat -> real)
    requires DiscountOk(disc) && t != ""
    ensures TableOf([Block(t, qs)], k, disc) == map[t := Dcg(k, Rels(qs), disc)]
  {
    assert [Block(t, qs)][..0] == [];
  }

  /** Judgments of one real topic: the ideal-DCG table has that topic only, with the DCG of its gain vector. */
  lemma OneTopicGainTable(qs: seq<QrelEntry>, t: string, k: nat, disc: nat -> real)
    requires DiscountOk(disc)
    requires qs != [] && t != ""
    requires forall i :: 0 <= i < |qs| ==> qs[i].topic == t
    ensures IdealTable(qs, k, disc) == map[t := Dcg(k, Rels(qs), disc)]
  {
    GroupSingleTopic(qs, QrelTopic, "", t);
    OneBlockTable(t, qs, k, disc);
  }

  /** The ideal-DCG table built from the judgments: T1's entry is the DCG of [3, 2, 1]. */
  lemma IdealGainTable(disc: nat -> real)
    requires DiscountOk(disc)
    ensures IdealTable(IdealJudged, 3, disc) == map["T1" := Dcg(3, [3, 2, 1], disc)]
  {
    OneTopicGainTable(IdealJudged, "T1", 3, disc);
    RelsOfNonNegative(IdealJudged);
    assert Rels(IdealJudged) == [3, 2, 1];
  }

  /** The judgments table built from the judgments: each document has its grade. */
  lemma IdealJudgments()
    ensures JudgmentTable(IdealJudged) == map["T1:d1" := 3, "T1:d2" := 2, "T1:d3" := 1]
  {
    var qs := IdealJudged;
    IdealKeys();
    JudgmentTablePrefix(qs, 0);
    JudgmentTablePrefix(qs, 1);
    JudgmentTablePrefix(qs, 2);
    assert qs[..3] == qs && qs[..0] == [];
  }

  /** The tables the run is scored against. */
  lemma IdealTables(disc: nat -> real)
    requires DiscountOk(disc)
    ensures SettingOf(QrelFile(IdealJudged, 3), 3, disc) ==
      Setting(map["T1" := Dcg(3, [3, 2, 1], disc)], map["T1:d1" := 3, "T1:d2" := 2, "T1:d3" := 1], 3, 3, disc)
  {
    IdealAlreadySorted();
    IdealGainTable(disc);
    IdealJudgments();
  }

  /** The gains of the ranked documents: their grades, in ranking order. */
  lemma IdealGains(judgments: map<string, int>)
    requires judgments == map["T1:d1" := 3, "T1:d2" := 2, "T1:d3" := 1]
    ensures Gains(judgments, IdealRanked) == [3, 2, 1]
  {
    GainsMeaning(judgments, IdealRanked);
    IdealKeys();
  }

  /** A single block with a real topic prints one line, and nothing else is printed. */
  lemma OneBlockRows(t: string, run: seq<TrecEntry>, s: Setting)
    requires DiscountOk(s.disc) && t != ""
    ensures Rows([Block(Some(t), run)], s) == [RowFor(t, Gains(s.judgments, run), s)]
  {
  }

  /** A run of one real topic prints one line, scored on the gains of all its entries. */
  lemma OneTopicRows(run: seq<TrecEntry>, t: string, s: Setting)
    requires DiscountOk(s.disc)
    requires run != [] && t != ""
    requires forall i :: 0 <= i < |run| ==> run[i].topic == t
    ensures Rows(Group(run, RunKey, None), s) == [RowFor(t, Gains(s.judgments, run), s)]
  {
    GroupSingleTopic(run, RunKey, None, Some(t));
    OneBlockRows(t, run, s);
  }

  /** T1's ideal DCG is positive. */
  lemma IdealDcgPositive(disc: nat -> real)
    requires DiscountOk(disc)
    ensures Dcg(3, [3, 2, 1], disc) > 0.0
  {
    DcgTopOnly(disc);
    DcgGrowsWithCutoff(1, 3, [3, 2, 1], disc);
  }

  /** A topic whose gains reach its positive ideal DCG scores NDCG 1. */
  lemma PerfectRow(t: string, g: seq<nat>, s: Setting)
    requires DiscountOk(s.disc)
    requires t in s.ideal && s.ideal[t] == Dcg(s.cutoff, g, s.disc) && s.ideal[t] > 0.0
    ensures RowFor(t, g, s).ndcg == 1.0
  {
    DivSelf(s.ideal[t]);
  }

  /** Scored against those tables, the run prints one line: T1 with NDCG 1 and ERR 1385/1536. */
  lemma IdealRows(s: Setting)
    requires DiscountOk(s.disc)
    requires s == Setting(map["T1" := Dcg(3, [3, 2, 1], s.disc)], map["T1:d1" := 3, "T1:d2" := 2, "T1:d3" := 1], 3, 3, s.disc)
    ensures Rows(Group(IdealRanked, RunKey, None), s) == [TopicResult("T1", 1.0, 1385.0 / 1536.0)]
  {
    var g := Gains(s.judgments, IdealRanked);
    assert g == [3, 2, 1] by { IdealGains(s.judgments); }
    OneTopicRows(IdealRanked, "T1", s);
    assert RowFor("T1", g, s).ndcg == 1.0 by {
      IdealDcgPositive(s.disc);
      PerfectRow("T1", g, s);
    }
    assert RowFor("T1", g, s).err == 1385.0 / 1536.0 by { ErrExamples(); }
  }

  /**
   * The whole evaluation of one topic ranked in its ideal order: with the
   * scores parsed as 3, 2 and 1, the report is run R, one line for T1 with
   * NDCG 1 and ERR 1385/1536, and those as the means.
   */
  lemma IdealRunReport(disc: nat -> real, parseScore: string -> Option<real>)
    requires DiscountOk(disc)
    requires parseScore("3") == Some(3.0) && parseScore("2") == Some(2.0) && parseScore("1") == Some(1.0)
    ensures Outcome(IdealQrelLines, IdealRunLines, 3, disc, parseScore) ==
      Success(Report("R", [TopicResult("T1", 1.0, 1385.0 / 1536.0)], Some(1.0), Some(1385.0 / 1536.0)))
  {
    IdealQrelsRead();
    IdealRunRead(parseScore);
    IdealAlreadySorted();
    IdealTables(disc);
    var s := SettingOf(QrelFile(IdealJudged, 3), 3, disc);
    IdealRows(s);
    var rows := [TopicResult("T1", 1.0, 1385.0 / 1536.0)];
    assert rows[..0] == [];
    assert NdcgTotal(rows) == 1.0 && ErrTotal(rows) == 1385.0 / 1536.0;
  }
}
