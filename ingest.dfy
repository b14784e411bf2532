/**
 * Reading the judgments (qrels) and building the two tables the evaluation
 * looks things up in: `ideal_gain`, the DCG of each topic's ideal ranking,
 * and `judgments`, the relevance of each judged document.
 *
 * The files are given as sequences of lines; opening and reading them is not
 * part of this model. A line that `QrelEntry::new` or `TrecEntry::new` would
 * panic on makes the whole reading fail with that line's error.
 */
module Ingest {
  import opened Basics
  import opened Fields
  import opened Entries
  import opened Metrics
  import opened Blocks
  import opened Compare
  import opened Sorting

  /** Parses every line with `parse`; the first line that fails decides the error. */
  function ParseLines<E>(lines: seq<string>, parse: string -> Result<E, LineError>): Result<seq<E>, LineError>
    decreases |lines|
  {
    if lines == [] then Success([])
    else
      match ParseLines(lines[..|lines| - 1], parse)
      case Failure(e) => Failure(e)
      case Success(es) =>
        match parse(lines[|lines| - 1])
        case Failure(e) => Failure(e)
        case Success(x) => Success(es + [x])
  }

  /**
   * Reading succeeds exactly when every line parses, and then yields one entry
   * per line, in order; otherwise it fails with the error of the first line
   * that does not parse.
   */
  lemma {:induction false} ParseLinesMeaning<E>(lines: seq<string>, parse: string -> Result<E, LineError>)
    ensures ParseLines(lines, parse).Success? <==> forall i :: 0 <= i < |lines| ==> parse(lines[i]).Success?
    ensures ParseLines(lines, parse).Success? ==>
      |ParseLines(lines, parse).value| == |lines| &&
      forall i :: 0 <= i < |lines| ==> parse(lines[i]) == Success(ParseLines(lines, parse).value[i])
    ensures ParseLines(lines, parse).Failure? ==>
      exists i :: 0 <= i < |lines| && parse(lines[i]) == Failure(ParseLines(lines, parse).error) &&
        forall j :: 0 <= j < i ==> parse(lines[j]).Success?
    decreases |lines|
  {
    if lines != [] {
      var init := lines[..|lines| - 1];
      assert forall i :: 0 <= i < |init| ==> init[i] == lines[i];
      ParseLinesMeaning(init, parse);
    }
  }

  /** `QrelEntry::new` applied to a line cut at every space. */
  function QrelLine(line: string): Result<QrelEntry, LineError> {
    NewQrel(Split(line, ' '))
  }

  /** The judgments with a positive relevance, in order. */
  function Positive(qs: seq<QrelEntry>): seq<QrelEntry>
    decreases |qs|
  {
    if qs == [] then []
    else
      var q := qs[|qs| - 1];
      Positive(qs[..|qs| - 1]) + (if q.relevance > 0 then [q] else [])
  }

  /**
   * `Positive` keeps exactly the judgments with a relevance above 0, each as
   * often as it was read.
   */
  lemma {:induction false} PositiveMeaning(qs: seq<QrelEntry>)
    ensures forall q :: q in Positive(qs) <==> q in qs && q.relevance > 0
    ensures forall q :: multiset(Positive(qs))[q] == if q.relevance > 0 then multiset(qs)[q] else 0
    decreases |qs|
  {
    if qs != [] {
      var init := qs[..|qs| - 1];
      assert qs == init + [qs[|qs| - 1]];
      PositiveMeaning(init);
    }
  }

  /** Judgments that are all positive are all kept. */
  lemma {:induction false} PositiveAll(qs: seq<QrelEntry>)
    requires forall i :: 0 <= i < |qs| ==> qs[i].relevance > 0
    ensures Positive(qs) == qs
    decreases |qs|
  {
    if qs != [] {
      var init := qs[..|qs| - 1];
      assert forall i :: 0 <= i < |init| ==> init[i] == qs[i];
      PositiveAll(init);
      assert qs == init + [qs[|qs| - 1]];
    }
  }

  /** `Positive` keeps the order of the judgments: filtering two pieces filters each. */
  lemma {:induction false} PositiveAppend(a: seq<QrelEntry>, b: seq<QrelEntry>)
    ensures Positive(a + b) == Positive(a) + Positive(b)
    decreases |b|
  {
    if b == [] {
      assert a + b == a;
    } else {
      var init := b[..|b| - 1];
      assert b == init + [b[|b| - 1]];
      assert a + b == (a + init) + [b[|b| - 1]];
      assert (a + b)[..|a + b| - 1] == a + init;
      PositiveAppend(a, init);
    }
  }

  /** The largest relevance read, and 0 if none is larger. */
  function MaxRelevance(qs: seq<QrelEntry>): nat
    decreases |qs|
  {
    if qs == [] then 0
    else
      var m := MaxRelevance(qs[..|qs| - 1]);
      if qs[|qs| - 1].relevance > m then qs[|qs| - 1].relevance else m
  }

  /** `MaxRelevance` is the maximum of 0 and every relevance read. */
  lemma {:induction false} MaxRelevanceMeaning(qs: seq<QrelEntry>)
    ensures forall i :: 0 <= i < |qs| ==> qs[i].relevance <= MaxRelevance(qs)
    ensures MaxRelevance(qs) == 0 || exists i :: 0 <= i < |qs| && qs[i].relevance == MaxRelevance(qs)
    decreases |qs|
  {
    if qs != [] {
      var init := qs[..|qs| - 1];
      assert forall i :: 0 <= i < |init| ==> init[i] == qs[i];
      MaxRelevanceMeaning(init);
    }
  }

  /** What reading the judgments file keeps: the positive judgments and the largest relevance. */
  datatype QrelFile = QrelFile(qrels: seq<QrelEntry>, maxJudgment: nat)

  function QrelsOf(lines: seq<string>): Result<QrelFile, LineError> {
    match ParseLines(lines, QrelLine)
    case Failure(e) => Failure(e)
    case Success(qs) => Success(QrelFile(Positive(qs), MaxRelevance(qs)))
  }

  /** A failure in a prefix is the failure of the whole. */
  lemma {:induction false} ParseFailureSticks<E>(lines: seq<string>, n: nat, parse: string -> Result<E, LineError>)
    requires n <= |lines|
    requires ParseLines(lines[..n], parse).Failure?
    ensures ParseLines(lines, parse) == ParseLines(lines[..n], parse)
    decreases |lines| - n
  {
    if n < |lines| {
      assert lines[..n + 1][..n] == lines[..n];
      ParseFailureSticks(lines, n + 1, parse);
    } else {
      assert lines[..n] == lines;
    }
  }

  /** The judgments-reading loop: parse each line, track the largest relevance, keep the positive ones. */
  method ReadQrels(lines: seq<string>) returns (r: Result<QrelFile, LineError>)
    ensures r == QrelsOf(lines)
  {
    var qrels: seq<QrelEntry> := [];
    var maxJudgment: nat := 0;
    for i := 0 to |lines|
      invariant ParseLines(lines[..i], QrelLine).Success?
      invariant qrels == Positive(ParseLines(lines[..i], QrelLine).value)
      invariant maxJudgment == MaxRelevance(ParseLines(lines[..i], QrelLine).value)
    {
      assert lines[..i + 1][..i] == lines[..i];
      var entry := QrelLine(lines[i]);
      if entry.Failure? {
        ParseFailureSticks(lines, i + 1, QrelLine);
        return Failure(entry.error);
      }
      var q := entry.value;
      ghost var qs := ParseLines(lines[..i], QrelLine).value;
      assert ParseLines(lines[..i + 1], QrelLine).value == qs + [q];
      assert (qs + [q])[..|qs|] == qs;
      if q.relevance > maxJudgment {
        maxJudgment := q.relevance;
      }
      if q.relevance > 0 {
        qrels := qrels + [q];
      }
    }
    assert lines[..|lines|] == lines;
    return Success(QrelFile(qrels, maxJudgment));
  }

  /** The topic of a judgment, as the scan sees it. */
  function QrelTopic(q: QrelEntry): string {
    q.topic
  }

  /** The gain vector the scan collects from a block: the non-negative relevances, in order. */
  function Rels(items: seq<QrelEntry>): seq<nat>
    decreases |items|
  {
    if items == [] then []
    else
      var q := items[|items| - 1];
      Rels(items[..|items| - 1]) + (if q.relevance >= 0 then [q.relevance] else [])
  }

  lemma RelsSnoc(items: seq<QrelEntry>, q: QrelEntry)
    ensures Rels(items + [q]) == Rels(items) + (if q.relevance >= 0 then [q.relevance] else [])
  {
    assert (items + [q])[..|items|] == items;
  }

  /** On judgments that are all non-negative, the gain vector is exactly their relevances. */
  lemma {:induction false} RelsOfNonNegative(items: seq<QrelEntry>)
    requires forall i :: 0 <= i < |items| ==> items[i].relevance >= 0
    ensures |Rels(items)| == |items|
    ensures forall i :: 0 <= i < |items| ==> Rels(items)[i] == items[i].relevance
    decreases |items|
  {
    if items != [] {
      var init := items[..|items| - 1];
      RelsOfNonNegative(init);
      assert items == init + [items[|items| - 1]];
      RelsSnoc(init, items[|items| - 1]);
    }
  }

  /** Each grade of the gain vector is the relevance of one of the judgments. */
  lemma {:induction false} RelsFrom(items: seq<QrelEntry>)
    ensures forall i :: 0 <= i < |Rels(items)| ==> exists j :: 0 <= j < |items| && Rels(items)[i] == items[j].relevance
    decreases |items|
  {
    if items != [] {
      var init, q := items[..|items| - 1], items[|items| - 1];
      assert items == init + [q];
      RelsFrom(init);
      RelsSnoc(init, q);
      forall i | 0 <= i < |Rels(items)| ensures exists j :: 0 <= j < |items| && Rels(items)[i] == items[j].relevance {
        var j: nat := |items| - 1;
        if i < |Rels(init)| {
          j :| 0 <= j < |init| && Rels(init)[i] == init[j].relevance;
          assert items[j] == init[j];
        }
        assert Rels(items)[i] == items[j].relevance;
      }
    } else {
      assert Rels(items) == [];
    }
  }

  /** Judgments in non-increasing relevance give a gain vector in non-increasing order. */
  lemma {:induction false} RelsNonIncreasing(items: seq<QrelEntry>)
    requires forall i, j :: 0 <= i < j < |items| ==> items[i].relevance >= items[j].relevance
    ensures NonIncreasing(Rels(items))
    decreases |items|
  {
    if items != [] {
      var init, q := items[..|items| - 1], items[|items| - 1];
      assert items == init + [q];
      assert forall i :: 0 <= i < |init| ==> init[i] == items[i];
      RelsNonIncreasing(init);
      RelsSnoc(init, q);
      RelsFrom(init);
      var g := Rels(items);
      forall i, j | 0 <= i < j < |g| ensures g[i] >= g[j] {
        if j >= |Rels(init)| {
          var k :| 0 <= k < |init| && Rels(init)[i] == init[k].relevance;
          assert g[j] == q.relevance;
        } else {
          assert g[i] == Rels(init)[i] && g[j] == Rels(init)[j];
        }
      }
    }
  }

  /** After the qrels sort, each topic's gain vector is in ideal order, highest grade first. */
  lemma {:induction false} SortedTopicRels(qs: seq<QrelEntry>, t: string)
    requires SortedBy(qs, QrelLe)
    ensures NonIncreasing(Rels(WithTopic(qs, QrelTopic, t)))
  {
    var ws := WithTopic(qs, QrelTopic, t);
    WithTopicSorted(qs, QrelTopic, t, QrelLe);
    forall i, j | 0 <= i < j < |ws| ensures ws[i].relevance >= ws[j].relevance {
      assert ws[i] in ws && ws[j] in ws;
      assert QrelLe(ws[i], ws[j]);
      QrelLeMeaning(ws[i], ws[j]);
    }
    RelsNonIncreasing(ws);
  }

  /** The `judgments` table after the scan: every non-negative judgment filed under its key, later ones winning. */
  function JudgmentTable(qs: seq<QrelEntry>): map<string, int>
    decreases |qs|
  {
    if qs == [] then map[]
    else
      var q := qs[|qs| - 1];
      if q.relevance < 0 then JudgmentTable(qs[..|qs| - 1])
      else JudgmentTable(qs[..|qs| - 1])[Key(q.topic, q.docid) := q.relevance]
  }

  lemma JudgmentTablePrefix(qs: seq<QrelEntry>, i: nat)
    requires i < |qs|
    ensures JudgmentTable(qs[..i + 1]) ==
      if qs[i].relevance < 0 then JudgmentTable(qs[..i])
      else JudgmentTable(qs[..i])[Key(qs[i].topic, qs[i].docid) := qs[i].relevance]
  {
    assert qs[..i + 1][..i] == qs[..i];
  }

  /**
   * Every non-negative judgment is filed under `topic:docid`, and every entry
   * of the table is the relevance of some non-negative judgment with that key.
   */
  lemma {:induction false} JudgmentTableMeaning(qs: seq<QrelEntry>)
    ensures forall i :: 0 <= i < |qs| && qs[i].relevance >= 0 ==> Key(qs[i].topic, qs[i].docid) in JudgmentTable(qs)
    ensures forall k :: k in JudgmentTable(qs) ==>
      exists i :: 0 <= i < |qs| && qs[i].relevance >= 0 && Key(qs[i].topic, qs[i].docid) == k &&
        JudgmentTable(qs)[k] == qs[i].relevance
    decreases |qs|
  {
    if qs != [] {
      var init := qs[..|qs| - 1];
      assert forall j :: 0 <= j < |init| ==> init[j] == qs[j];
      JudgmentTableMeaning(init);
    }
  }

  /** The `ideal_gain` entries for a run of closed blocks: the DCG of each block's gains, blocks without a topic skipped. */
  function TableOf(bs: seq<Block<QrelEntry, string>>, k: nat, disc: nat -> real): map<string, real>
    requires DiscountOk(disc)
    decreases |bs|
  {
    if bs == [] then map[]
    else
      var init, b := bs[..|bs| - 1], bs[|bs| - 1];
      if b.topic == "" then TableOf(init, k, disc)
      else TableOf(init, k, disc)[b.topic := Dcg(k, Rels(b.items), disc)]
  }

  lemma TableOfSnoc(bs: seq<Block<QrelEntry, string>>, b: Block<QrelEntry, string>, k: nat, disc: nat -> real)
    requires DiscountOk(disc)
    ensures TableOf(bs + [b], k, disc) ==
      if b.topic == "" then TableOf(bs, k, disc) else TableOf(bs, k, disc)[b.topic := Dcg(k, Rels(b.items), disc)]
  {
    assert (bs + [b])[..|bs|] == bs;
  }

  /** The `ideal_gain` table the scan over the (sorted) judgments builds. */
  function IdealTable(qs: seq<QrelEntry>, k: nat, disc: nat -> real): map<string, real>
    requires DiscountOk(disc)
  {
    TableOf(Group(qs, QrelTopic, ""), k, disc)
  }

  /**
   * One step of the judgments scan, on the model's state: a change to a new
   * topic closes a block with a real topic (its DCG enters the table and the
   * gain vector restarts); the entry's relevance joins the gain vector when it
   * is not negative.
   */
  lemma IdealStep(bs: seq<Block<QrelEntry, string>>, q: QrelEntry, k: nat, disc: nat -> real)
    requires DiscountOk(disc)
    ensures var t, bs' := CurrentTopic(bs, ""), Step(bs, q, QrelTopic, "");
      && CurrentTopic(bs', "") == q.topic
      && TableOf(Closed(bs'), k, disc) ==
        (if t != q.topic && t != "" then TableOf(Closed(bs), k, disc)[t := Dcg(k, Rels(CurrentItems(bs)), disc)]
         else TableOf(Closed(bs), k, disc))
      && Rels(CurrentItems(bs')) ==
        (if t != q.topic && t != "" then [] else Rels(CurrentItems(bs))) + (if q.relevance >= 0 then [q.relevance] else [])
  {
    StepState(bs, q, QrelTopic, "");
    RelsSnoc(CurrentItems(bs), q);
    RelsSnoc([], q);
    TableOfSnoc(Closed(bs), Block(CurrentTopic(bs, ""), CurrentItems(bs)), k, disc);
  }

  /** After the last entry, the open block (when it has a topic) enters the table too. */
  lemma IdealFlush(qs: seq<QrelEntry>, bs: seq<Block<QrelEntry, string>>, k: nat, disc: nat -> real)
    requires DiscountOk(disc)
    requires bs == Group(qs, QrelTopic, "")
    ensures IdealTable(qs, k, disc) ==
      if CurrentTopic(bs, "") != "" then TableOf(Closed(bs), k, disc)[CurrentTopic(bs, "") := Dcg(k, Rels(CurrentItems(bs)), disc)]
      else TableOf(Closed(bs), k, disc)
  {
    if bs != [] {
      ClosedThenCurrent(bs, "");
      TableOfSnoc(Closed(bs), Block(CurrentTopic(bs, ""), CurrentItems(bs)), k, disc);
    }
  }

  /** The scan over the sorted judgments: one DCG per topic into `ideal_gain`, every judgment into `judgments`. */
  method BuildTables(qs: seq<QrelEntry>, cutoff: nat, disc: nat -> real)
    returns (idealGain: map<string, real>, judgments: map<string, int>)
    requires DiscountOk(disc)
    ensures idealGain == IdealTable(qs, cutoff, disc)
    ensures judgments == JudgmentTable(qs)
  {
    idealGain, judgments := map[], map[];
    var gain: seq<nat> := [];
    var currTopic := "";
    ghost var bs: seq<Block<QrelEntry, string>> := [];
    for i := 0 to |qs|
      invariant bs == Group(qs[..i], QrelTopic, "")
      invariant currTopic == CurrentTopic(bs, "")
      invariant gain == Rels(CurrentItems(bs))
      invariant idealGain == TableOf(Closed(bs), cutoff, disc)
      invariant judgments == JudgmentTable(qs[..i])
    {
      var q := qs[i];
      IdealStep(bs, q, cutoff, disc);
      if currTopic != q.topic {
        if currTopic != "" {
          var d := ComputeDcg(cutoff, gain, disc);
          idealGain := idealGain[currTopic := d];
          gain := [];
        }
        currTopic := q.topic;
      }
      if q.relevance >= 0 {
        judgments := judgments[Key(q.topic, q.docid) := q.relevance];
        gain := gain + [q.relevance];
      }
      JudgmentTablePrefix(qs, i);
      GroupPrefix(qs, i, QrelTopic, "");
      bs := Step(bs, q, QrelTopic, "");
    }
    assert qs[..|qs|] == qs;
    IdealFlush(qs, bs, cutoff, disc);
    if currTopic != "" {
      var d := ComputeDcg(cutoff, gain, disc);
      idealGain := idealGain[currTopic := d];
    }
  }

  /**
   * Later judgments overwrite earlier ones: a non-negative judgment that no
   * later non-negative judgment shares a key with has the last word.
   */
  lemma {:induction false} JudgmentTableLastWins(qs: seq<QrelEntry>, i: nat)
    requires i < |qs| && qs[i].relevance >= 0
    requires forall j :: i < j < |qs| && qs[j].relevance >= 0 ==> Key(qs[j].topic, qs[j].docid) != Key(qs[i].topic, qs[i].docid)
    ensures Key(qs[i].topic, qs[i].docid) in JudgmentTable(qs)
    ensures JudgmentTable(qs)[Key(qs[i].topic, qs[i].docid)] == qs[i].relevance
    decreases |qs|
  {
    if i < |qs| - 1 {
      var init := qs[..|qs| - 1];
      assert init[i] == qs[i];
      forall j | i < j < |init| && init[j].relevance >= 0
        ensures Key(init[j].topic, init[j].docid) != Key(init[i].topic, init[i].docid)
      {
        assert init[j] == qs[j];
      }
      JudgmentTableLastWins(init, i);
    }
  }

  /**
   * After the qrels sort a document judged twice for a topic comes last with
   * its lowest grade, so `judgments` keeps that lowest grade: the entry for a
   * judgment's key is at most its relevance (and, by `JudgmentTableMeaning`,
   * the relevance of one of them). This needs topics without a colon; a colon
   * in the topic lets two different pairs share a key.
   */
  lemma {:induction false} SortedJudgmentLowest(qs: seq<QrelEntry>)
    requires SortedBy(qs, QrelLe)
    requires forall m :: 0 <= m < |qs| ==> ':' !in qs[m].topic
    ensures forall i :: 0 <= i < |qs| && qs[i].relevance >= 0 ==>
      Key(qs[i].topic, qs[i].docid) in JudgmentTable(qs) &&
      JudgmentTable(qs)[Key(qs[i].topic, qs[i].docid)] <= qs[i].relevance
    decreases |qs|
  {
    if qs != [] {
      var init, q := qs[..|qs| - 1], qs[|qs| - 1];
      assert forall j :: 0 <= j < |init| ==> init[j] == qs[j];
      SortedJudgmentLowest(init);
      forall i | 0 <= i < |init| && qs[i].relevance >= 0 && q.relevance >= 0
        ensures Key(qs[i].topic, qs[i].docid) == Key(q.topic, q.docid) ==> q.relevance <= qs[i].relevance
      {
        if Key(qs[i].topic, qs[i].docid) == Key(q.topic, q.docid) {
          KeyInjective(qs[i].topic, qs[i].docid, q.topic, q.docid);
          assert QrelLe(qs[i], q);
          QrelLeMeaning(qs[i], q);
        }
      }
    }
  }

  /** The table has an entry for exactly the topics of the blocks, the empty topic excepted. */
  lemma {:induction false} TableOfKeys(bs: seq<Block<QrelEntry, string>>, k: nat, disc: nat -> real)
    requires DiscountOk(disc)
    ensures TableOf(bs, k, disc).Keys == BlockTopics(bs) - {""}
    decreases |bs|
  {
    if bs != [] {
      var init, b := bs[..|bs| - 1], bs[|bs| - 1];
      assert bs == init + [b];
      TableOfKeys(init, k, disc);
      BlockTopicsSnoc(init, b);
    }
  }

  /** With one block per topic, each topic's entry is the DCG of its own block. */
  lemma {:induction false} TableOfDistinct(bs: seq<Block<QrelEntry, string>>, k: nat, disc: nat -> real)
    requires DiscountOk(disc)
    requires DistinctTopics(bs)
    ensures forall i :: 0 <= i < |bs| && bs[i].topic != "" ==>
      bs[i].topic in TableOf(bs, k, disc) && TableOf(bs, k, disc)[bs[i].topic] == Dcg(k, Rels(bs[i].items), disc)
    decreases |bs|
  {
    if bs != [] {
      var init, b := bs[..|bs| - 1], bs[|bs| - 1];
      assert DistinctTopics(init);
      TableOfDistinct(init, k, disc);
      forall i | 0 <= i < |bs| - 1 && bs[i].topic != ""
        ensures bs[i].topic in TableOf(bs, k, disc) && TableOf(bs, k, disc)[bs[i].topic] == Dcg(k, Rels(bs[i].items), disc)
      {
        assert bs[i] == init[i];
      }
    }
  }

  /** `ideal_gain` has a key for exactly the topics that have a judgment, the empty topic excepted. */
  lemma {:induction false} IdealTableKeys(qs: seq<QrelEntry>, k: nat, disc: nat -> real)
    requires DiscountOk(disc)
    ensures IdealTable(qs, k, disc).Keys == Topics(qs, QrelTopic) - {""}
  {
    TableOfKeys(Group(qs, QrelTopic, ""), k, disc);
    GroupTopics(qs, QrelTopic, "");
  }

  /** Judgments ordered by the qrels comparator keep each topic together. */
  lemma {:induction false} SortedQrelsContiguous(qs: seq<QrelEntry>)
    requires SortedBy(qs, QrelLe)
    ensures Contiguous(qs, QrelTopic)
  {
    forall i, j, m | 0 <= i < j < |qs| && qs[i].topic == qs[j].topic && i <= m <= j
      ensures qs[m].topic == qs[i].topic
    {
      if i < m < j {
        assert QrelLe(qs[i], qs[m]) && QrelLe(qs[m], qs[j]);
        QrelLeMeaning(qs[i], qs[m]);
        QrelLeMeaning(qs[m], qs[j]);
        StrLeAntisymmetric(qs[i].topic, qs[m].topic);
      }
    }
  }

  /**
   * On judgments ordered by the qrels comparator, none of them with the empty
   * topic, the `ideal_gain` entry of each judged topic is the DCG of that
   * topic's relevances, in the order the sort left them.
   */
  lemma {:induction false} IdealTableValues(qs: seq<QrelEntry>, k: nat, disc: nat -> real, t: string)
    requires DiscountOk(disc)
    requires SortedBy(qs, QrelLe) && NoEmptyTopic(qs, QrelTopic, "")
    requires t in Topics(qs, QrelTopic)
    ensures t in IdealTable(qs, k, disc)
    ensures IdealTable(qs, k, disc)[t] == Dcg(k, Rels(WithTopic(qs, QrelTopic, t)), disc)
  {
    var bs := Group(qs, QrelTopic, "");
    SortedQrelsContiguous(qs);
    GroupContiguous(qs, QrelTopic, "");
    TableOfDistinct(bs, k, disc);
    var i := TopicBlock(qs, QrelTopic, "", t);
    assert bs[i].topic == t && t != "";
  }

  /**
   * The ideal ranking of a topic: after the qrels sort, the topic's judgments
   * are a rearrangement of the topic's judgments as read, ordered by
   * relevance, highest first.
   */
  lemma {:induction false} IdealRanking(qs: seq<QrelEntry>, t: string)
    ensures var sorted := WithTopic(InsertionSort(qs, QrelLe), QrelTopic, t);
      && (forall q :: multiset(sorted)[q] == multiset(WithTopic(qs, QrelTopic, t))[q])
      && (forall i, j :: 0 <= i < j < |sorted| ==> sorted[i].relevance >= sorted[j].relevance)
  {
    var sorted := WithTopic(InsertionSort(qs, QrelLe), QrelTopic, t);
    InsertionSortPermutes(qs, QrelLe);
    WithTopicPermutes(InsertionSort(qs, QrelLe), qs, QrelTopic, t);
    QrelLeIsOrder();
    InsertionSortSorts(qs, QrelLe);
    WithTopicSorted(InsertionSort(qs, QrelLe), QrelTopic, t, QrelLe);
    forall i, j | 0 <= i < j < |sorted| ensures sorted[i].relevance >= sorted[j].relevance {
      assert sorted[i] in sorted && sorted[j] in sorted;
      assert QrelLe(sorted[i], sorted[j]);
      QrelLeMeaning(sorted[i], sorted[j]);
    }
  }

  /** The qrels comparator is a total preorder, as the sort needs. */
  lemma QrelLeIsOrder()
    ensures Total(QrelLe) && Transitive(QrelLe)
  {
    forall a, b ensures QrelLe(a, b) || QrelLe(b, a) {
      QrelLeTotal(a, b);
    }
    forall a, b, c | QrelLe(a, b) && QrelLe(b, c) ensures QrelLe(a, c) {
      QrelLeTransitive(a, b, c);
    }
  }

  /** No value in `judgments` is negative or above the largest relevance read. */
  lemma {:induction false} JudgmentTableBounded(qs: seq<QrelEntry>, m: nat)
    requires forall i :: 0 <= i < |qs| ==> qs[i].relevance <= m
    ensures forall k :: k in JudgmentTable(qs) ==> 0 <= JudgmentTable(qs)[k] <= m
  {
    JudgmentTableMeaning(qs);
  }

  /** After the qrels sort, the judgments with the empty topic come first. */
  lemma SortedEmptyFirst(qs: seq<QrelEntry>)
    requires SortedBy(qs, QrelLe)
    ensures NoneFirst(qs, QrelTopic, "")
  {
    forall i, j | 0 <= i < j < |qs| && QrelTopic(qs[j]) == "" ensures QrelTopic(qs[i]) == "" {
      assert QrelLe(qs[i], qs[j]);
      QrelLeMeaning(qs[i], qs[j]);
      NothingBelowEmpty(qs[i].topic);
    }
  }

  /**
   * After the qrels sort, the judgments with the empty topic are the first
   * ones; the rest is still sorted and starts with the least real topic.
   */
  lemma {:induction false} SortedEmptiesFront(qs: seq<QrelEntry>)
    requires SortedBy(qs, QrelLe)
    ensures var n := |WithTopic(qs, QrelTopic, "")|;
      && n <= |qs| && WithTopic(qs, QrelTopic, "") == qs[..n]
      && (forall i :: 0 <= i < n ==> qs[i].topic == "")
      && SortedBy(qs[n..], QrelLe) && NoEmptyTopic(qs[n..], QrelTopic, "")
      && (forall i :: n <= i < |qs| ==> StrLe(qs[n].topic, qs[i].topic))
  {
    var n := |WithTopic(qs, QrelTopic, "")|;
    SortedEmptyFirst(qs);
    NoneFirstSplit(qs, QrelTopic, "");
    forall i | n <= i < |qs| ensures StrLe(qs[n].topic, qs[i].topic) {
      if n < i {
        assert QrelLe(qs[n], qs[i]);
        QrelLeMeaning(qs[n], qs[i]);
      }
    }
    var rs := qs[n..];
    assert NoEmptyTopic(rs, QrelTopic, "") by {
      forall i | 0 <= i < |rs| ensures QrelTopic(rs[i]) != "" {
        assert rs[i] == qs[n + i];
      }
    }
    assert SortedBy(rs, QrelLe) by {
      forall i, j | 0 <= i < j < |rs| ensures QrelLe(rs[i], rs[j]) {
        assert rs[i] == qs[n + i] && rs[j] == qs[n + j];
      }
    }
  }

  /**
   * The blocks of sorted judgments `rs` of real topics, preceded by
   * judgments `es` of the empty topic: one block per topic, the first one
   * holding `es` in front of its own judgments.
   */
  lemma AbsorbedGroup(es: seq<QrelEntry>, rs: seq<QrelEntry>)
    requires forall i :: 0 <= i < |es| ==> es[i].topic == ""
    requires rs != [] && SortedBy(rs, QrelLe) && NoEmptyTopic(rs, QrelTopic, "")
    ensures var g, a := Group(rs, QrelTopic, ""), Group(es + rs, QrelTopic, "");
      && DistinctTopics(a) && |a| == |g| && g[0].topic == rs[0].topic
      && a[0] == Block(rs[0].topic, es + WithTopic(rs, QrelTopic, rs[0].topic))
      && (forall i :: 0 < i < |a| ==> a[i] == g[i])
  {
    var g := Group(rs, QrelTopic, "");
    SortedQrelsContiguous(rs);
    GroupContiguous(rs, QrelTopic, "");
    GroupAfterNone(es, rs, QrelTopic, "");
    GroupFirstTopic(rs, QrelTopic, "");
    var a := Absorb(es, g);
    assert g[0].items == WithTopic(rs, QrelTopic, rs[0].topic);
    forall i, j | 0 <= i < j < |a| ensures a[i].topic != a[j].topic {
      assert a[i].topic == g[i].topic && a[j].topic == g[j].topic;
    }
  }

  /**
   * In the `ideal_gain` table of sorted judgments `rs` of real topics,
   * preceded by judgments `es` of the empty topic, the first topic of `rs`
   * is scored on the relevances of `es` followed by its own.
   */
  lemma AbsorbedFirstTopic(es: seq<QrelEntry>, rs: seq<QrelEntry>, k: nat, disc: nat -> real)
    requires DiscountOk(disc)
    requires forall i :: 0 <= i < |es| ==> es[i].topic == ""
    requires rs != [] && SortedBy(rs, QrelLe) && NoEmptyTopic(rs, QrelTopic, "")
    ensures rs[0].topic in IdealTable(es + rs, k, disc)
    ensures IdealTable(es + rs, k, disc)[rs[0].topic] == Dcg(k, Rels(es + WithTopic(rs, QrelTopic, rs[0].topic)), disc)
  {
    var a := Group(es + rs, QrelTopic, "");
    AbsorbedGroup(es, rs);
    TableOfDistinct(a, k, disc);
    assert a[0].topic != "";
  }

  /**
   * In the same table, every topic of `rs` but the first is scored on its
   * own relevances alone.
   */
  lemma AbsorbedOtherTopic(es: seq<QrelEntry>, rs: seq<QrelEntry>, k: nat, disc: nat -> real, t: string)
    requires DiscountOk(disc)
    requires forall i :: 0 <= i < |es| ==> es[i].topic == ""
    requires SortedBy(rs, QrelLe) && NoEmptyTopic(rs, QrelTopic, "")
    requires t in Topics(rs, QrelTopic) && t != rs[0].topic
    ensures t in IdealTable(es + rs, k, disc)
    ensures IdealTable(es + rs, k, disc)[t] == Dcg(k, Rels(WithTopic(rs, QrelTopic, t)), disc)
  {
    SortedQrelsContiguous(rs);
    var b := TopicBlock(rs, QrelTopic, "", t);
    var a := Group(es + rs, QrelTopic, "");
    AbsorbedGroup(es, rs);
    TableOfDistinct(a, k, disc);
    assert b != 0;
    assert a[b] == Block(t, WithTopic(rs, QrelTopic, t));
  }

  /**
   * A real topic of judgments whose first `n` have the empty topic is a
   * topic of the rest, and its judgments are all in the rest.
   */
  lemma TopicInRest(qs: seq<QrelEntry>, n: nat, t: string)
    requires n <= |qs| && forall i :: 0 <= i < n ==> qs[i].topic == ""
    requires t in Topics(qs, QrelTopic) && t != ""
    ensures n < |qs| && t in Topics(qs[n..], QrelTopic)
    ensures WithTopic(qs, QrelTopic, t) == WithTopic(qs[n..], QrelTopic, t)
  {
    TopicsIndex(qs, QrelTopic, t);
    var m :| 0 <= m < |qs| && QrelTopic(qs[m]) == t;
    var es, rs := qs[..n], qs[n..];
    SplitAt(qs, n);
    assert rs[m - n] == qs[m];
    TopicsMember(rs, QrelTopic, m - n);
    WithAbsentTopic(es, QrelTopic, t);
    WithTopicAppend(es, rs, QrelTopic, t);
    assert [] + WithTopic(rs, QrelTopic, t) == WithTopic(rs, QrelTopic, t);
  }

  /**
   * The empty-topic quirk. A judgment whose topic is the empty string (a
   * line that starts with a space) sorts first, and the scan never closes
   * its block: the first real topic, the least one, takes those relevances
   * over, in front of its own. Every other topic keeps the DCG of its own
   * relevances.
   */
  lemma {:induction false} EmptyTopicAbsorbed(qs: seq<QrelEntry>, k: nat, disc: nat -> real, t: string)
    requires DiscountOk(disc)
    requires SortedBy(qs, QrelLe)
    requires t in Topics(qs, QrelTopic) && t != ""
    ensures var empties := WithTopic(qs, QrelTopic, "");
      && |empties| < |qs| && empties == qs[..|empties|] && qs[|empties|].topic != ""
      && (forall i :: 0 <= i < |qs| && qs[i].topic != "" ==> StrLe(qs[|empties|].topic, qs[i].topic))
      && t in IdealTable(qs, k, disc)
      && IdealTable(qs, k, disc)[t] ==
           Dcg(k, Rels((if t == qs[|empties|].topic then empties else []) + WithTopic(qs, QrelTopic, t)), disc)
  {
    var empties := WithTopic(qs, QrelTopic, "");
    var n := |empties|;
    SortedEmptiesFront(qs);
    TopicInRest(qs, n, t);
    var es, rs := qs[..n], qs[n..];
    SplitAt(qs, n);
    assert qs[n] == rs[0];
    if t == rs[0].topic {
      AbsorbedFirstTopic(es, rs, k, disc);
    } else {
      AbsorbedOtherTopic(es, rs, k, disc, t);
      assert [] + WithTopic(qs, QrelTopic, t) == WithTopic(qs, QrelTopic, t);
    }
  }

  /**
   * The quirk on two lines: topic "5" is credited with the gains [1, 2]
   * instead of [2].
   */
  lemma EmptyTopicExample(disc: nat -> real)
    requires DiscountOk(disc)
    ensures IdealTable([QrelEntry("", "d1", 1), QrelEntry("5", "d2", 2)], 1, disc) == map["5" := 1.0]
  {
    var q1, q2 := QrelEntry("", "d1", 1), QrelEntry("5", "d2", 2);
    GroupSnoc([], q1, QrelTopic, "");
    assert [] + [q1] == [q1];
    assert Group([q1], QrelTopic, "") == [Block("", [q1])];
    GroupSnoc([q1], q2, QrelTopic, "");
    assert [q1] + [q2] == [q1, q2];
    var b := Block("5", [q1, q2]);
    assert Group([q1, q2], QrelTopic, "") == [b];
    RelsSnoc([], q1);
    RelsSnoc([q1], q2);
    assert Rels([q1, q2]) == [1, 2];
    assert Take([1, 2], 1) == [1];
    assert DcgSum([1], disc) == 1.0 by {
      assert [1][..0] == [];
    }
    assert TableOf([b], 1, disc) == map["5" := Dcg(1, Rels(b.items), disc)] by {
      assert [b][..0] == [];
    }
  }
}
