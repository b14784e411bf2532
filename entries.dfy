/**
 * The two record kinds the evaluator reads, how one line's fields become a
 * record (`QrelEntry::new`, `TrecEntry::new`), the lookup key of a judgment,
 * and the two sort orders (`sort_by` comparators) applied to them.
 */
module Entries {
  import opened Basics
  import opened Compare
  import opened Fields

  /** One relevance judgment: a qrels line `topic unused docid relevance`. */
  datatype QrelEntry = QrelEntry(topic: string, docid: string, relevance: int)

  /** One ranked result: a run line `topic unused docid unused score runid`. */
  datatype TrecEntry = TrecEntry(topic: string, docid: string, score: real, runid: string)

  /** Why a line was refused; in `src/lib.rs` each is a panic. */
  datatype LineError =
    | FieldCount(expected: nat, found: nat)  // "qrel fields not 4" / "run fields not 6"
    | BadNumber(text: string)                // `unwrap` of a failed `parse`

  /** `QrelEntry::new`: exactly four fields; topic, docid and relevance are fields 0, 2 and 3. */
  function NewQrel(fields: seq<string>): (r: Result<QrelEntry, LineError>)
    ensures |fields| != 4 ==> r == Failure(FieldCount(4, |fields|))
    ensures |fields| == 4 && ParseI32(fields[3]).None? ==> r == Failure(BadNumber(fields[3]))
    ensures r.Success? <==> |fields| == 4 && ParseI32(fields[3]).Some?
    ensures r.Success? ==>
      && r.value.topic == fields[0]
      && r.value.docid == fields[2]
      && Some(r.value.relevance) == ParseI32(fields[3])
      && I32Min <= r.value.relevance <= I32Max
  {
    if |fields| != 4 then Failure(FieldCount(4, |fields|))
    else
      match ParseI32(fields[3])
      case None => Failure(BadNumber(fields[3]))
      case Some(relevance) => Success(QrelEntry(fields[0], fields[2], relevance))
  }

  /**
   * `TrecEntry::new`: exactly six fields; topic, docid, score and runid are
   * fields 0, 2, 4 and 5. `parseScore` stands for `str::parse::<f64>`.
   */
  function NewTrec(fields: seq<string>, parseScore: string -> Option<real>): (r: Result<TrecEntry, LineError>)
    ensures |fields| != 6 ==> r == Failure(FieldCount(6, |fields|))
    ensures |fields| == 6 && parseScore(fields[4]).None? ==> r == Failure(BadNumber(fields[4]))
    ensures r.Success? <==> |fields| == 6 && parseScore(fields[4]).Some?
    ensures r.Success? ==>
      && r.value.topic == fields[0]
      && r.value.docid == fields[2]
      && Some(r.value.score) == parseScore(fields[4])
      && r.value.runid == fields[5]
  {
    if |fields| != 6 then Failure(FieldCount(6, |fields|))
    else
      match parseScore(fields[4])
      case None => Failure(BadNumber(fields[4]))
      case Some(score) => Success(TrecEntry(fields[0], fields[2], score, fields[5]))
  }

  predicate NoSpace(s: string) {
    ' ' !in s
  }

  /** A judgment written out as a qrels line reads back as the same judgment. */
  lemma QrelLineRoundTrip(e: QrelEntry, iteration: string)
    requires NoSpace(e.topic) && NoSpace(iteration) && NoSpace(e.docid)
    requires I32Min <= e.relevance <= I32Max
    ensures NewQrel(Split(Join([e.topic, iteration, e.docid, ShowInt(e.relevance)], ' '), ' ')) == Success(e)
  {
    var fields := [e.topic, iteration, e.docid, ShowInt(e.relevance)];
    ParseShowInt(e.relevance);
    SplitJoin(fields, ' ');
  }

  /** A ranked result written out as a run line reads back as the same result. */
  lemma TrecLineRoundTrip(e: TrecEntry, q0: string, rank: string, scoreText: string,
                          parseScore: string -> Option<real>)
    requires NoSpace(e.topic) && NoSpace(q0) && NoSpace(e.docid)
    requires NoSpace(rank) && NoSpace(scoreText) && NoSpace(e.runid)
    requires parseScore(scoreText) == Some(e.score)
    ensures NewTrec(Split(Join([e.topic, q0, e.docid, rank, scoreText, e.runid], ' '), ' '), parseScore)
            == Success(e)
  {
    SplitJoin([e.topic, q0, e.docid, rank, scoreText, e.runid], ' ');
  }

  /** The key under which the `judgments` table files a document: `format!("{}:{}", topic, docid)`. */
  function Key(topic: string, docid: string): (k: string)
    ensures |k| == |topic| + 1 + |docid| && k[|topic|] == ':'
    ensures k[..|topic|] == topic && k[|topic| + 1..] == docid
  {
    topic + ":" + docid
  }

  /**
   * A key names one topic and document when the topic holds no colon: the
   * first colon of the key is the one `Key` put there.
   */
  lemma KeyInjective(t1: string, d1: string, t2: string, d2: string)
    requires ':' !in t1 && ':' !in t2
    requires Key(t1, d1) == Key(t2, d2)
    ensures t1 == t2 && d1 == d2
  {
    var k := Key(t1, d1);
    assert forall m :: 0 <= m < |t1| ==> k[m] == t1[m];
    assert forall m :: 0 <= m < |t2| ==> k[m] == t2[m];
    assert |t1| == |t2|;
  }

  /** The qrels comparator: topic ascending, then relevance descending. */
  function QrelCmp(a: QrelEntry, b: QrelEntry): Ordering {
    CmpStr(a.topic, b.topic).Then(CmpInt(b.relevance, a.relevance))
  }

  /** The run comparator: topic ascending, then score descending, then docid descending. */
  function RunCmp(a: TrecEntry, b: TrecEntry): Ordering {
    CmpStr(a.topic, b.topic).Then(CmpReal(b.score, a.score)).Then(CmpStr(b.docid, a.docid))
  }

  /** "`a` may stay before `b`" for the qrels sort. */
  predicate QrelLe(a: QrelEntry, b: QrelEntry) {
    QrelCmp(a, b) != Greater
  }

  /** "`a` may stay before `b`" for the run sort. */
  predicate RunLe(a: TrecEntry, b: TrecEntry) {
    RunCmp(a, b) != Greater
  }

  /** What `QrelLe` means, key by key. */
  lemma QrelLeMeaning(a: QrelEntry, b: QrelEntry)
    ensures QrelLe(a, b) <==>
      || CmpStr(a.topic, b.topic) == Less
      || (a.topic == b.topic && a.relevance >= b.relevance)
  {
  }

  /** What `RunLe` means, key by key. */
  lemma RunLeMeaning(a: TrecEntry, b: TrecEntry)
    ensures RunLe(a, b) <==>
      || CmpStr(a.topic, b.topic) == Less
      || (a.topic == b.topic && a.score > b.score)
      || (a.topic == b.topic && a.score == b.score && StrLe(b.docid, a.docid))
  {
  }

  /** Any two judgments are ordered one way or the other. */
  lemma QrelLeTotal(a: QrelEntry, b: QrelEntry)
    ensures QrelLe(a, b) || QrelLe(b, a)
  {
    CmpStrReverse(a.topic, b.topic);
  }

  lemma QrelLeTransitive(a: QrelEntry, b: QrelEntry, c: QrelEntry)
    requires QrelLe(a, b) && QrelLe(b, c)
    ensures QrelLe(a, c)
  {
    StrLeTransitive(a.topic, b.topic, c.topic);
    if a.topic == c.topic && a.topic != b.topic {
      StrLeAntisymmetric(a.topic, b.topic);
    }
  }

  /** Any two ranked results are ordered one way or the other. */
  lemma RunLeTotal(a: TrecEntry, b: TrecEntry)
    ensures RunLe(a, b) || RunLe(b, a)
  {
    CmpStrReverse(a.topic, b.topic);
    CmpStrReverse(a.docid, b.docid);
  }

  lemma RunLeTransitive(a: TrecEntry, b: TrecEntry, c: TrecEntry)
    requires RunLe(a, b) && RunLe(b, c)
    ensures RunLe(a, c)
  {
    StrLeTransitive(a.topic, b.topic, c.topic);
    if a.topic == c.topic && a.topic != b.topic {
      StrLeAntisymmetric(a.topic, b.topic);
    }
    if a.topic == b.topic == c.topic && a.score == b.score == c.score {
      StrLeTransitive(c.docid, b.docid, a.docid);
    }
  }
}
