/**
 * The evaluation proper: read the run, order it, walk it topic by topic,
 * look up each document's judgment, and score every topic with NDCG and ERR;
 * then report the per-topic scores and their arithmetic means.
 *
 * The lines the evaluator prints become the values it returns: one
 * `TopicResult` per printed topic line and the two means of the closing
 * "amean" line. The run scan resets its gain vector at every change of
 * topic, also when the previous topic was the empty string, so (unlike in
 * the judgments scan) entries with the empty topic are dropped rather than
 * credited to the next topic. The scan is therefore modelled by grouping the
 * run on `Some(topic)`, with `None` as the start marker no topic matches.
 */
module Evaluation {
  import opened Basics
  import opened Compare
  import opened Fields
  import opened Entries
  import opened Metrics
  import opened Sorting
  import opened Blocks
  import opened Ingest

  /** `TrecEntry::new` applied to a line cut at every space, with `parseScore` reading the score. */
  function RunParser(parseScore: string -> Option<real>): string -> Result<TrecEntry, LineError> {
    line => NewTrec(Split(line, ' '), parseScore)
  }

  /** The run-reading loop: every line becomes one entry, in order. */
  method ReadRun(lines: seq<string>, parseScore: string -> Option<real>) returns (r: Result<seq<TrecEntry>, LineError>)
    ensures r == ParseLines(lines, RunParser(parseScore))
  {
    var run: seq<TrecEntry> := [];
    for i := 0 to |lines|
      invariant ParseLines(lines[..i], RunParser(parseScore)) == Success(run)
    {
      assert lines[..i + 1][..i] == lines[..i];
      var entry := NewTrec(Split(lines[i], ' '), parseScore);
      if entry.Failure? {
        ParseFailureSticks(lines, i + 1, RunParser(parseScore));
        return Failure(entry.error);
      }
      run := run + [entry.value];
    }
    assert lines[..|lines|] == lines;
    return Success(run);
  }

  /** The key the run scan groups on: the entry's topic, never `None`. */
  function RunKey(e: TrecEntry): Option<string> {
    Some(e.topic)
  }

  /** The scan's `curr_topic`: the empty string before the first entry. */
  function CurrTopic(bs: seq<Block<TrecEntry, Option<string>>>): string {
    match CurrentTopic(bs, None)
    case None => ""
    case Some(t) => t
  }

  /** What the evaluation looks things up in. */
  datatype Setting = Setting(
    ideal: map<string, real>,
    judgments: map<string, int>,
    cutoff: nat,
    maxJudgment: nat,
    disc: nat -> real)

  /** The gain of a ranked document: its judgment, 0 when it has none, and never below 0. */
  function GainOf(judgments: map<string, int>, e: TrecEntry): nat {
    var j := if Key(e.topic, e.docid) in judgments then judgments[Key(e.topic, e.docid)] else 0;
    if j < 0 then 0 else j
  }

  /** The gain vector of a block of ranked documents, in ranking order. */
  function Gains(judgments: map<string, int>, items: seq<TrecEntry>): seq<nat>
    decreases |items|
  {
    if items == [] then []
    else Gains(judgments, items[..|items| - 1]) + [GainOf(judgments, items[|items| - 1])]
  }

  /** The gain vector holds, position by position, the gains of the ranked documents. */
  lemma {:induction false} GainsMeaning(judgments: map<string, int>, items: seq<TrecEntry>)
    ensures |Gains(judgments, items)| == |items|
    ensures forall i :: 0 <= i < |items| ==> Gains(judgments, items)[i] == GainOf(judgments, items[i])
    decreases |items|
  {
    if items != [] {
      GainsMeaning(judgments, items[..|items| - 1]);
    }
  }

  /** One printed topic line. */
  datatype TopicResult = TopicResult(topic: string, ndcg: real, err: real)

  /** The scores of one topic from its gain vector: NDCG against the topic's ideal DCG (0 without one), and ERR. */
  function RowFor(topic: string, g: seq<nat>, s: Setting): TopicResult
    requires DiscountOk(s.disc)
  {
    var ideal := if topic in s.ideal then s.ideal[topic] else 0.0;
    TopicResult(topic, if ideal > 0.0 then Dcg(s.cutoff, g, s.disc) / ideal else 0.0, Err(s.cutoff, g, s.maxJudgment))
  }

  /** The lines printed for the closed blocks: only topics that are not empty and have an ideal DCG. */
  function ClosedRows(cs: seq<Block<TrecEntry, Option<string>>>, s: Setting): seq<TopicResult>
    requires DiscountOk(s.disc)
    decreases |cs|
  {
    if cs == [] then []
    else
      var b := cs[|cs| - 1];
      ClosedRows(cs[..|cs| - 1], s) +
        match b.topic
        case Some(t) => if t != "" && t in s.ideal then [RowFor(t, Gains(s.judgments, b.items), s)] else []
        case None => []
  }

  /** All printed topic lines: the closed blocks' lines, then the last topic's line whenever it is not empty. */
  function Rows(bs: seq<Block<TrecEntry, Option<string>>>, s: Setting): seq<TopicResult>
    requires DiscountOk(s.disc)
  {
    ClosedRows(Closed(bs), s) + if CurrTopic(bs) != "" then [RowFor(CurrTopic(bs), Gains(s.judgments, CurrentItems(bs)), s)] else []
  }

  function NdcgTotal(rows: seq<TopicResult>): real
    decreases |rows|
  {
    if rows == [] then 0.0 else NdcgTotal(rows[..|rows| - 1]) + rows[|rows| - 1].ndcg
  }

  function ErrTotal(rows: seq<TopicResult>): real
    decreases |rows|
  {
    if rows == [] then 0.0 else ErrTotal(rows[..|rows| - 1]) + rows[|rows| - 1].err
  }

  lemma TotalsSnoc(rows: seq<TopicResult>, r: TopicResult)
    ensures NdcgTotal(rows + [r]) == NdcgTotal(rows) + r.ndcg
    ensures ErrTotal(rows + [r]) == ErrTotal(rows) + r.err
  {
    assert (rows + [r])[..|rows|] == rows;
  }

  lemma ClosedRowsSnoc(cs: seq<Block<TrecEntry, Option<string>>>, b: Block<TrecEntry, Option<string>>, s: Setting)
    requires DiscountOk(s.disc)
    ensures ClosedRows(cs + [b], s) == ClosedRows(cs, s) +
      match b.topic
      case Some(t) => if t != "" && t in s.ideal then [RowFor(t, Gains(s.judgments, b.items), s)] else []
      case None => []
  {
    assert (cs + [b])[..|cs|] == cs;
  }

  lemma GainsSnoc(judgments: map<string, int>, items: seq<TrecEntry>, e: TrecEntry)
    ensures Gains(judgments, items + [e]) == Gains(judgments, items) + [GainOf(judgments, e)]
  {
    assert (items + [e])[..|items|] == items;
  }

  /**
   * One step of the run scan, on the model's state: a change of topic closes
   * the current block (printing its line when its topic is not empty and has
   * an ideal DCG) and restarts the gain vector; the entry's gain joins it.
   */
  lemma RunStep(bs: seq<Block<TrecEntry, Option<string>>>, e: TrecEntry, s: Setting)
    requires DiscountOk(s.disc)
    requires bs == [] || CurrentTopic(bs, None).Some?
    ensures var t, bs' := CurrTopic(bs), Step(bs, e, RunKey, None);
      && CurrTopic(bs') == e.topic
      && ClosedRows(Closed(bs'), s) ==
        (if t != e.topic && t != "" && t in s.ideal then ClosedRows(Closed(bs), s) + [RowFor(t, Gains(s.judgments, CurrentItems(bs)), s)]
         else ClosedRows(Closed(bs), s))
      && Gains(s.judgments, CurrentItems(bs')) ==
        (if t != e.topic then [] else Gains(s.judgments, CurrentItems(bs))) + [GainOf(s.judgments, e)]
  {
    StepState(bs, e, RunKey, None);
    var bs' := Step(bs, e, RunKey, None);
    if bs == [] {
      GainsSnoc(s.judgments, [], e);
    } else if CurrentTopic(bs, None) == Some(e.topic) {
      GainsSnoc(s.judgments, CurrentItems(bs), e);
    } else {
      var t := CurrentTopic(bs, None).value;
      assert CurrTopic(bs) == t;
      assert Closed(bs') == Closed(bs) + [Block(Some(t), CurrentItems(bs))];
      ClosedRowsSnoc(Closed(bs), Block(Some(t), CurrentItems(bs)), s);
      GainsSnoc(s.judgments, [], e);
    }
  }

  /** The scan over the sorted run: score each topic, print its line, and keep the totals and the count. */
  method ScanRun(run: seq<TrecEntry>, s: Setting)
    returns (rows: seq<TopicResult>, ndcgTotal: real, errTotal: real, topics: nat)
    requires DiscountOk(s.disc)
    ensures rows == Rows(Group(run, RunKey, None), s)
    ensures ndcgTotal == NdcgTotal(rows) && errTotal == ErrTotal(rows) && topics == |rows|
  {
    rows, ndcgTotal, errTotal, topics := [], 0.0, 0.0, 0;
    var currTopic := "";
    var gain: seq<nat> := [];
    ghost var bs: seq<Block<TrecEntry, Option<string>>> := [];
    for i := 0 to |run|
      invariant bs == Group(run[..i], RunKey, None)
      invariant currTopic == CurrTopic(bs)
      invariant gain == Gains(s.judgments, CurrentItems(bs))
      invariant rows == ClosedRows(Closed(bs), s)
      invariant ndcgTotal == NdcgTotal(rows) && errTotal == ErrTotal(rows) && topics == |rows|
    {
      var entry := run[i];
      RunStep(bs, entry, s);
      if currTopic != entry.topic {
        if currTopic != "" {
          if currTopic in s.ideal {
            rows, ndcgTotal, errTotal, topics := EmitTopic(currTopic, gain, s, rows, ndcgTotal, errTotal, topics);
          }
        }
        currTopic := entry.topic;
        gain := [];
      }
      var j := if Key(entry.topic, entry.docid) in s.judgments then s.judgments[Key(entry.topic, entry.docid)] else 0;
      if j < 0 {
        j := 0;
      }
      gain := gain + [j as nat];
      GroupPrefix(run, i, RunKey, None);
      bs := Step(bs, entry, RunKey, None);
    }
    assert run[..|run|] == run;
    if currTopic != "" {
      rows, ndcgTotal, errTotal, topics := EmitTopic(currTopic, gain, s, rows, ndcgTotal, errTotal, topics);
    }
  }

  /** Scores a topic, prints its line and adds its scores to the running totals and count. */
  method EmitTopic(topic: string, gain: seq<nat>, s: Setting,
                   rows: seq<TopicResult>, ndcgTotal: real, errTotal: real, topics: nat)
    returns (rows': seq<TopicResult>, ndcgTotal': real, errTotal': real, topics': nat)
    requires DiscountOk(s.disc)
    requires ndcgTotal == NdcgTotal(rows) && errTotal == ErrTotal(rows) && topics == |rows|
    ensures rows' == rows + [RowFor(topic, gain, s)]
    ensures ndcgTotal' == NdcgTotal(rows') && errTotal' == ErrTotal(rows') && topics' == |rows'|
  {
    var row := ScoreTopic(topic, gain, s);
    TotalsSnoc(rows, row);
    ndcgTotal' := ndcgTotal + row.ndcg;
    errTotal' := errTotal + row.err;
    topics' := topics + 1;
    rows' := rows + [row];
  }

  /** Scores one topic from its gain vector, as both branches of the scan do. */
  method ScoreTopic(topic: string, gain: seq<nat>, s: Setting) returns (row: TopicResult)
    requires DiscountOk(s.disc)
    ensures row == RowFor(topic, gain, s)
  {
    var currIdeal := if topic in s.ideal then s.ideal[topic] else 0.0;
    var currNdcg := 0.0;
    if currIdeal > 0.0 {
      var d := ComputeDcg(s.cutoff, gain, s.disc);
      currNdcg := d / currIdeal;
    }
    var currErr := ComputeErr(s.cutoff, gain, s.maxJudgment);
    row := TopicResult(topic, currNdcg, currErr);
  }

  /** Why an evaluation stops without a report. */
  datatype EvalError =
    | QrelError(qrelLine: LineError)   // a judgments line `QrelEntry::new` rejects
    | RunError(runLine: LineError)     // a run line `TrecEntry::new` rejects
    | EmptyRun                         // no run entry, so no `run[0]` to take the run id from

  /** What the evaluator prints: the run id, one line per topic, and the "amean" line. */
  datatype Report = Report(runid: string, rows: seq<TopicResult>, ndcgMean: Option<real>, errMean: Option<real>)

  /** A total over `count` topics; 0/0 (NaN in floating point) is `None`. */
  function Mean(total: real, count: nat): (m: Option<real>)
    ensures m.Some? <==> count > 0
    ensures m.Some? ==> m.value * count as real == total
  {
    if count == 0 then None else Some(total / count as real)
  }

  /** The tables the run is scored against, built from the judgments sorted by the qrels comparator. */
  function SettingOf(qf: QrelFile, cutoff: nat, disc: nat -> real): Setting
    requires DiscountOk(disc)
  {
    var qrels := InsertionSort(qf.qrels, QrelLe);
    Setting(IdealTable(qrels, cutoff, disc), JudgmentTable(qrels), cutoff, qf.maxJudgment, disc)
  }

  /** The report on a sorted, non-empty run: the run id of its first entry, its topic lines and their means. */
  function ReportOf(ranked: seq<TrecEntry>, s: Setting): Report
    requires DiscountOk(s.disc)
    requires ranked != []
  {
    var rows := Rows(Group(ranked, RunKey, None), s);
    Report(ranked[0].runid, rows, Mean(NdcgTotal(rows), |rows|), Mean(ErrTotal(rows), |rows|))
  }

  /**
   * The whole evaluation on the lines of the two files: read and check every
   * line, sort the judgments, build the ideal-DCG and judgment tables, sort the
   * run, take the run id from its first entry, and score it topic by topic.
   */
  function Outcome(qrelLines: seq<string>, runLines: seq<string>, cutoff: nat,
                   disc: nat -> real, parseScore: string -> Option<real>): Result<Report, EvalError>
    requires DiscountOk(disc)
  {
    match QrelsOf(qrelLines)
    case Failure(e) => Failure(QrelError(e))
    case Success(qf) =>
      match ParseLines(runLines, RunParser(parseScore))
      case Failure(e) => Failure(RunError(e))
      case Success(run) =>
        var ranked := InsertionSort(run, RunLe);
        if ranked == [] then Failure(EmptyRun)
        else Success(ReportOf(ranked, SettingOf(qf, cutoff, disc)))
  }

  /** The evaluator's `run`, reading from the lines of the two files instead of the files. */
  method Evaluate(qrelLines: seq<string>, runLines: seq<string>, cutoff: nat,
                  disc: nat -> real, parseScore: string -> Option<real>) returns (r: Result<Report, EvalError>)
    requires DiscountOk(disc)
    ensures r == Outcome(qrelLines, runLines, cutoff, disc, parseScore)
  {
    var qf := ReadQrels(qrelLines);
    if qf.Failure? {
      return Failure(QrelError(qf.error));
    }
    var rf := ReadRun(runLines, parseScore);
    if rf.Failure? {
      return Failure(RunError(rf.error));
    }
    var qs, run := qf.value.qrels, rf.value;

    var qrels := new QrelEntry[|qs|](i requires 0 <= i < |qs| => qs[i]);
    assert qrels[..] == qs;
    SortBy(qrels, QrelLe);
    var idealGain, judgments := BuildTables(qrels[..], cutoff, disc);

    var ranked := new TrecEntry[|run|](i requires 0 <= i < |run| => run[i]);
    assert ranked[..] == run;
    SortBy(ranked, RunLe);
    if ranked.Length == 0 {
      return Failure(EmptyRun);
    }
    var runid := ranked[0].runid;
    var s := Setting(idealGain, judgments, cutoff, qf.value.maxJudgment, disc);
    var rows, ndcgTotal, errTotal, topics := ScanRun(ranked[..], s);
    return Success(Report(runid, rows, Mean(ndcgTotal, topics), Mean(errTotal, topics)));
  }
}
