# grdeval in Dafny

grdeval is a small command-line tool for evaluating ranked retrieval runs. It
reads two space-separated text files. Each line is cut at every single
space, so two spaces in a row give an empty field:

- a **qrels** file of relevance judgments, one line per judged document:
  `topic iteration docid relevance`;
- a **TREC run** file, one line per retrieved document:
  `topic Q0 docid rank score runid`.

For the topics of the run it prints two scores at a rank cutoff `k`
(default 20). Not every topic is printed: see "Behaviour of the code" below
for the topics that are skipped. The scores are:

- **NDCG@k**, normalised discounted cumulative gain;
- **ERR@k**, expected reciprocal rank.

A final `amean` line gives the arithmetic mean of each metric over the topics
it printed.

This project models the evaluation engine in `src/lib.rs`:

- the record constructors `QrelEntry::new` and `TrecEntry::new`;
- the two sort comparators;
- the qrel ingestion and the ideal-gain and judgment tables it builds;
- the per-topic scan over the sorted run;
- the metric functions `dcg` and `err`.

The modules, one per file:

| file | module | contents |
|---|---|---|
| `basics.dfy` | `Basics` | `Option`, `Result`, `Min`, and `SplitAt` (a sequence is its prefix followed by the rest) |
| `compare.dfy` | `Compare` | the three-way `Ordering` with `then_with`, and byte-wise string order (`CmpStr`, `StrLe`) |
| `fields.dfy` | `Fields` | splitting a line on `' '`, the `i32` parser, decimal printing |
| `entries.dfy` | `Entries` | `QrelEntry`, `TrecEntry`, their constructors, the `topic:docid` key, the qrel and run comparators |
| `sorting.dfy` | `Sorting` | a stable sort as a function (`InsertionSort`) and as an in-place array method (`SortBy`) |
| `metrics.dfy` | `Metrics` | `Dcg` and `Err` as functions, the loops of `dcg` and `err` as methods proved equal to them, and their properties |
| `blocks.dfy` | `Blocks` | the "current topic" scan pattern shared by both loops of `run`, as a grouping of a sequence into blocks |
| `ingest.dfy` | `Ingest` | reading the qrels, the positive-only filter, `max_judgment`, and the `ideal_gain` and `judgments` tables |
| `evaluate.dfy` | `Evaluation` | reading the run, the evaluation scan, the means, and the whole of `run` (`Evaluate`) proved equal to a functional `Outcome` |
| `reporting.dfy` | `Reporting` | properties of `Outcome`: which topics are printed, what each row is, bounds, means, the run id, the empty run |

Modelling decisions:

- **Arithmetic.** Scores are exact `real`s. `(i + 2).log(2.0)` becomes a
  discount function `disc` passed in as a parameter. `DiscountOk` is the only
  assumption made about it: `disc(0) == 1` and every discount is positive.
- **Parsing.** The `f64` parser is a parameter `parseScore`. The `i32` parser
  is modelled digit by digit, with sign and range.
- **Panics.** Each panic (`panic!` on a wrong field count, the `unwrap` of a
  parse, `run[0]` on an empty run) becomes a `Failure` value, so every input
  has a defined outcome.
- **Input.** The files are given as sequences of lines.

## Model

| member | source | states |
|---|---|---|
| Entries.NewQrel | src/lib.rs:181-191 | a qrel line must have exactly 4 fields, or the result is a field-count error; the relevance must parse as an `i32`, or the result is a number error; otherwise topic is field 0, docid field 2, relevance the parsed field 3, within the `i32` range |
| Entries.NewTrec | src/lib.rs:202-218 | a run line must have exactly 6 fields and a parseable score; otherwise the entry takes topic from field 0, docid from field 2, score from field 4 and runid from field 5 |
| Entries.QrelLineRoundTrip | src/lib.rs:181-191 | splitting a printed qrel line and constructing the entry gives back the entry |
| Entries.TrecLineRoundTrip | src/lib.rs:202-218 | splitting a printed run line and constructing the entry gives back the entry |
| Entries.Key | src/lib.rs:53 | the judgment key is the topic, then `:`, then the docid |
| Entries.QrelLeMeaning | src/lib.rs:40-41 | qrels are ordered by topic ascending, then relevance descending |
| Entries.RunLeMeaning | src/lib.rs:62-64 | run entries are ordered by topic ascending, then score descending, then docid descending |
| Entries.QrelLeTotal | src/lib.rs:40-41 | the qrel comparator relates every pair one way or the other |
| Entries.QrelLeTransitive | src/lib.rs:40-41 | the qrel comparator is transitive |
| Entries.RunLeTotal | src/lib.rs:62-64 | the run comparator relates every pair one way or the other |
| Entries.RunLeTransitive | src/lib.rs:62-64 | the run comparator is transitive |
| Compare.CmpStrReverse | src/lib.rs:40 | swapping the arguments of the string comparison reverses its result |
| Compare.StrLeAntisymmetric | src/lib.rs:40 | two strings each at most the other are equal |
| Compare.StrLeTransitive | src/lib.rs:40 | string order is transitive |
| Fields.Split | src/lib.rs:24 | splitting on `' '` yields at least one field, and no field holds the separator |
| Fields.JoinSplit | src/lib.rs:24 | joining the fields of a split line with `' '` restores the line |
| Fields.SplitJoin | src/lib.rs:24 | splitting a line joined from separator-free fields gives back those fields |
| Fields.ParseI32 | src/lib.rs:188 | a parsed relevance lies within the `i32` range |
| Fields.ParseShowInt | src/lib.rs:188 | every `i32` printed in decimal parses back to itself |
| Sorting.InsertionSortPermutes | src/lib.rs:40-41 | sorting rearranges the entries without adding or losing any |
| Sorting.InsertionSortSorts | src/lib.rs:40-41 | sorting with a total, transitive order yields a sequence ordered by it |
| Sorting.SortBy | src/lib.rs:40-41 | sorting the vector in place leaves in it exactly the stable sort of its old contents |
| Metrics.DcgSum | src/lib.rs:238-245 | the DCG sum is never negative |
| Metrics.ComputeDcg | src/lib.rs:233-246 | the loop of `dcg` computes the sum of `(2^g_i - 1) / disc(i)` over the first `min(k, len)` gains |
| Metrics.ComputeErr | src/lib.rs:248-261 | the loop of `err` computes the cascade sum of `r_i * decay_i / (i + 1)` over the first `min(k, len)` gains, where `decay` is multiplied by `1 - r_i` after each step |
| Metrics.DcgZero | src/lib.rs:234-236 | `dcg` is 0 for an empty gain vector or a zero cutoff |
| Metrics.DcgIgnoresTail | src/lib.rs:239 | gains after position `k` do not affect `dcg` |
| Metrics.DcgCutoffBeyondLength | src/lib.rs:239 | a cutoff beyond the gain vector's length gives the same `dcg` as the length itself |
| Metrics.DcgGrowsWithCutoff | src/lib.rs:239-243 | a larger cutoff never lowers `dcg` |
| Metrics.DcgTopOnly | src/lib.rs:296-302 | `dcg(1, [3, 2, 1])` is 7 |
| Metrics.ErrZero | src/lib.rs:248-261 | `err` is 0 for an empty gain vector or a zero cutoff |
| Metrics.ErrCutoffBeyondLength | src/lib.rs:252 | a cutoff beyond the gain vector's length gives the same `err` as the length itself |
| Metrics.ErrExamples | src/lib.rs:314-336 | with maximum judgment 3, `err` of `[3, 2, 1]` is 7/8 at cutoff 1 and 1385/1536 (0.9016927…) at cutoffs 3 and 5 |
| Metrics.Pow2Monotone | src/lib.rs:242 | `2^n` grows with `n` |
| Metrics.ProbBounds | src/lib.rs:255 | the stopping probability of a grade at most the maximum judgment lies in `[0, 1)` |
| Metrics.ErrStep | src/lib.rs:256-257 | each step keeps the decay in `(0, 1]` without increasing it, never decreases the score, and never increases score + decay |
| Metrics.ErrInvariant | src/lib.rs:252-258 | over gains at most the maximum judgment, the decay stays in `(0, 1]`, the score stays non-negative, and score + decay stays at most 1 |
| Metrics.ErrBounds | src/lib.rs:248-261 | `err` lies in `[0, 1)` when no gain exceeds the maximum judgment |
| Ingest.ParseLinesMeaning | src/lib.rs:22-24 | reading succeeds exactly when every line parses; the entries are then the parsed lines in order; otherwise the error is that of the first bad line |
| Ingest.PositiveMeaning | src/lib.rs:28-30 | an entry is kept exactly when its relevance is positive, and each kept entry as often as it was read |
| Ingest.PositiveAppend | src/lib.rs:22-30 | the filter keeps the file order: filtering two consecutive pieces of the file filters each piece |
| Ingest.MaxRelevanceMeaning | src/lib.rs:19-27 | `max_judgment` is at least every relevance read, and is 0 or equal to one of them |
| Ingest.ParseFailureSticks | src/lib.rs:22-24 | once a line fails to parse, reading the rest of the file does not change the outcome |
| Ingest.ReadQrels | src/lib.rs:21-31 | the reading loop produces the positive entries in file order and `max_judgment`, or the first line error |
| Ingest.RelsOfNonNegative | src/lib.rs:50-54 | for entries with non-negative relevance, the gain vector is their relevances in order |
| Ingest.JudgmentTableMeaning | src/lib.rs:53 | every entry with non-negative relevance has its key in `judgments`, and every key comes from such an entry, whose relevance it holds |
| Ingest.JudgmentTableLastWins | src/lib.rs:53 | a later insert under the same key overwrites an earlier one: a non-negative entry with no later non-negative entry of the same key holds the value under its key |
| Entries.KeyInjective | src/lib.rs:53 | keys of topics without a colon are distinct for distinct topic and docid pairs |
| Ingest.SortedJudgmentLowest | src/lib.rs:40-53 | after the qrel sort, the `judgments` value under a colon-free topic's key is at most every relevance judged for that topic and docid, so a document judged twice keeps its lowest grade |
| Ingest.JudgmentTableBounded | src/lib.rs:53 | every value in `judgments` lies between 0 and a bound on all relevances |
| Ingest.IdealStep | src/lib.rs:42-55 | one step of the qrel scan: a change of topic flushes the current topic's `dcg` (unless the current topic is empty) and restarts the gain vector; the entry's relevance is appended to the gain vector |
| Ingest.IdealFlush | src/lib.rs:56-59 | after the loop, the last topic's `dcg` is inserted unless that topic is empty |
| Ingest.BuildTables | src/lib.rs:42-59 | the loop over the sorted qrels builds exactly the ideal-gain table and the judgment table |
| Ingest.TableOfKeys | src/lib.rs:43-47 | the table holds exactly the non-empty topics of the closed blocks |
| Ingest.IdealTableKeys | src/lib.rs:42-59 | `ideal_gain` has a key for exactly the non-empty topics among the kept qrels |
| Ingest.SortedQrelsContiguous | src/lib.rs:40-41 | after sorting, each topic's qrels are adjacent |
| Ingest.IdealTableValues | src/lib.rs:42-59 | for sorted qrels with no empty topic, each topic's ideal gain is the `dcg` of that topic's relevances in sorted order |
| Ingest.IdealRanking | src/lib.rs:40-41 | after sorting, a topic's qrels are the same entries in order of non-increasing relevance |
| Ingest.QrelLeIsOrder | src/lib.rs:40-41 | the qrel comparator is a total preorder |
| Blocks.GroupFlattens | src/lib.rs:42-55 | the blocks of the scan together hold every entry once, in order: the per-topic gain vectors lose and duplicate nothing |
| Blocks.ClosedBlocksHaveTopics | src/lib.rs:43-47 | every block the scan closes has a non-empty topic; only the block still open at the end can carry the empty topic |
| Ingest.SortedEmptyFirst | src/lib.rs:40-41 | after the qrel sort, every qrel with the empty topic comes before every other qrel |
| Ingest.SortedEmptiesFront | src/lib.rs:40-41 | after the qrel sort, the empty-topic qrels are a prefix; the rest is sorted, has no empty topic and starts with the least topic |
| Ingest.AbsorbedGroup | src/lib.rs:42-55 | the qrel scan over empty-topic qrels followed by sorted real ones gives one block per topic, the first one holding the empty-topic qrels in front of its own |
| Ingest.AbsorbedFirstTopic | src/lib.rs:42-59 | the first real topic after empty-topic qrels gets the `dcg` of the empty-topic relevances followed by its own |
| Ingest.AbsorbedOtherTopic | src/lib.rs:42-59 | every later topic gets the `dcg` of its own relevances |
| Ingest.EmptyTopicAbsorbed | src/lib.rs:40-59 | for any sorted qrels, the empty-topic qrels come first and the least real topic follows them; its ideal gain is the `dcg` of the empty-topic relevances followed by its own, and every other topic's ideal gain is the `dcg` of its own relevances |
| Ingest.EmptyTopicExample | src/lib.rs:43-48 | example: with qrels `("", d1, 1)` and `("5", d2, 2)` at cutoff 1 the only ideal gain is 1 for topic "5" |
| Evaluation.ReadRun | src/lib.rs:33-37 | the run is the parsed lines in file order, or the first line error |
| Evaluation.GainsMeaning | src/lib.rs:96-103 | the gain vector has one entry per run entry: its judgment under `topic:docid`, 0 when unjudged, clamped at 0 |
| Evaluation.RunStep | src/lib.rs:74-104 | one step of the run scan: a change of topic emits the current topic's row if the topic is non-empty and in `ideal_gain`, then restarts the gain vector; the entry's gain is appended |
| Evaluation.ScanRun | src/lib.rs:66-119 | the scan over the sorted run emits exactly the rows `Rows` defines, and its totals and topic count are their sums and number |
| Evaluation.EmitTopic | src/lib.rs:82-90 | emitting a topic appends its row and keeps the totals and the count equal to the sums and number of rows |
| Evaluation.ScoreTopic | src/lib.rs:78-87 | a topic's row: NDCG is `dcg / ideal` when the ideal gain is positive, else 0 (missing ideal counts as 0); ERR is `err` with the maximum judgment |
| Evaluation.Mean | src/lib.rs:120 | a mean is defined exactly when at least one topic was printed, and then times the count gives the total |
| Evaluation.Evaluate | src/lib.rs:12-123 | the whole evaluation (read qrels, read run, sort and tabulate qrels, sort run, scan) produces exactly `Outcome` |
| Reporting.RunLeIsOrder | src/lib.rs:62-64 | the run comparator is a total preorder |
| Reporting.RankedRun | src/lib.rs:62-64 | the sorted run is a rearrangement of the run in which each earlier entry has a smaller topic, or the same topic and a higher score, or the same topic and score and a docid no smaller |
| Reporting.SortedRunContiguous | src/lib.rs:62-64 | after sorting, each topic's run entries are adjacent |
| Reporting.ClosedRowSource | src/lib.rs:75-91 | every row emitted on a change of topic comes from a closed block with a non-empty topic present in `ideal_gain`, scored on that block's gains |
| Reporting.ClosedRowFor | src/lib.rs:75-91 | every closed block with a non-empty topic in `ideal_gain` gets a row |
| Reporting.ClosedRowsDistinct | src/lib.rs:75-91 | closed blocks with distinct topics give rows with distinct topics |
| Reporting.RowSource | src/lib.rs:74-119 | every printed row comes from one block of the scan, scored on its gains; only the last block may lack an ideal gain |
| Reporting.RowsDistinct | src/lib.rs:74-119 | no topic is printed twice when the blocks have distinct topics |
| Reporting.RowScoresTopic | src/lib.rs:74-119 | over a sorted run, each printed row is scored on the gains of all of its topic's run entries, in run order |
| Reporting.RowsScoreTopics | src/lib.rs:74-119 | over a sorted run, every printed row scores its topic's entries, and no topic is printed twice |
| Reporting.PrintedTopicQualifies | src/lib.rs:74-119 | a printed topic is non-empty, occurs in the run, and is either in `ideal_gain` or the last topic of the sorted run, that is, its greatest topic |
| Reporting.QualifyingTopicPrinted | src/lib.rs:74-119 | every non-empty run topic that is in `ideal_gain`, or is the last topic of the sorted run (its greatest topic), is printed |
| Reporting.PrintedTopics | src/lib.rs:74-119 | a topic is printed if and only if it is non-empty, occurs in the run, and is in `ideal_gain` or is the last topic of the sorted run, that is, its greatest topic |
| Reporting.GainsAtMost | src/lib.rs:96-103 | when every judgment is at most `m`, so is every gain |
| Reporting.RowForBounds | src/lib.rs:82-87 | a row's NDCG is non-negative and its ERR lies in `[0, 1)` |
| Reporting.RowsBounded | src/lib.rs:74-119 | every printed row has a non-negative NDCG and an ERR in `[0, 1)` |
| Reporting.TotalsBounded | src/lib.rs:86-116 | the NDCG total is non-negative; the ERR total is non-negative and below the number of rows |
| Reporting.SettingBounded | src/lib.rs:25-53 | every value in `judgments` lies between 0 and `max_judgment` |
| Reporting.ReportBounded | src/lib.rs:12-123 | in a successful evaluation every row has NDCG ≥ 0 and ERR in `[0, 1)`, the NDCG mean is ≥ 0, and the ERR mean is in `[0, 1)` |
| Reporting.MeansDefined | src/lib.rs:105-120 | for a sorted non-empty run, the means are defined exactly when some entry has a non-empty topic |
| Reporting.MeansDefinedForRun | src/lib.rs:12-123 | in a successful evaluation, the means are defined exactly when the run file has an entry with a non-empty topic |
| Reporting.FirstRankedLeads | src/lib.rs:62-69 | the first entry after sorting is from the run, has the least topic, and has the highest score within that topic |
| Reporting.RunIdOfFirstRanked | src/lib.rs:69 | the reported run id is that of a run entry with the least topic and the highest score within it |
| Reporting.EmptyRunRejected | src/lib.rs:69 | the evaluation fails on the empty run exactly when the qrels read and the run file has no lines |
| Reporting.IdealOrderScoresOne | src/lib.rs:78-85 | for sorted qrels with no empty-topic entry, scoring a topic on its own positive relevances in sorted (ideal) order gives NDCG 1 whenever its ideal gain is positive |
| Reporting.EmptyTopicNdcgAboveOne | src/lib.rs:42-85 | example: with qrels `("", d1, 1)` and `("5", d2, 2)` at cutoff 1, topic "5" ranked in its ideal order `[2]` scores NDCG 3, since its ideal gain is that of the absorbed grade 1 |
| Blocks.GroupOrdered | src/lib.rs:74-104 | when the entries' topics are in order, the topics of the scan's blocks are in the same order |
| Blocks.GroupOneTopic | src/lib.rs:74-104 | entries that all share one topic form a single block holding all of them |
| Reporting.SortedRunBlocksAscend | src/lib.rs:62-64 | on a run sorted by the run comparator, the scan's blocks have real topics in strictly ascending byte-wise order |
| Reporting.ClosedRowsAscend | src/lib.rs:75-91 | closed blocks in strictly ascending topic order emit their rows in strictly ascending topic order |
| Reporting.RowsAscend | src/lib.rs:74-119 | blocks in strictly ascending topic order print all their rows, the last topic's included, in strictly ascending topic order |
| Reporting.RowsInTopicOrder | src/lib.rs:62-119 | over the sorted run, the printed rows come in strictly ascending byte-wise topic order |
| Ingest.PositiveAll | src/lib.rs:28-30 | when every relevance read is positive, the filter keeps every entry |
| Ingest.RelsFrom | src/lib.rs:50-54 | every grade of a gain vector is the relevance of one of its block's entries |
| Ingest.RelsNonIncreasing | src/lib.rs:50-54 | entries in non-increasing relevance give a non-increasing gain vector |
| Ingest.SortedTopicRels | src/lib.rs:40-55 | after the qrel sort, each topic's gain vector is non-increasing |
| Metrics.NonIncreasingUnique | src/lib.rs:40-41 | two non-increasing gain vectors holding the same grades are equal: a topic has one ideal order |
| Sorting.InsertionSortSorted | src/lib.rs:62-64 | sorting a sequence that is already in order leaves it unchanged |
| Reporting.IdealRankingScoresOne | src/lib.rs:40-119 | for sorted qrels with no empty-topic entry and a sorted run, a topic with a positive ideal gain whose run gains are its own relevances in non-increasing order is printed, and every row for it has NDCG 1 |
| Reporting.PerfectRow | src/lib.rs:82-85 | a topic whose `dcg` equals its positive ideal gain scores NDCG 1 |
| Reporting.DcgFirst | src/lib.rs:238-245 | at cutoff 1, `dcg` is the gain of the first grade |
| Reporting.QrelLineReads | src/lib.rs:181-191 | a judgments line written as `topic 0 docid grade` reads as that judgment |
| Reporting.RunLineReads | src/lib.rs:202-218 | a run line written as `topic Q0 docid rank score runid` reads as that entry when the score text parses as its score |
| Reporting.IdealQrelsRead | src/lib.rs:21-31 | example: the lines `T1 0 d1 3`, `T1 0 d2 2`, `T1 0 d3 1` read as three judgments, all kept, with maximum judgment 3 |
| Reporting.IdealRunRead | src/lib.rs:33-37 | example: the lines `T1 Q0 d1 1 3 R`, `T1 Q0 d2 2 2 R`, `T1 Q0 d3 3 1 R` read as three entries of run R with scores 3, 2 and 1 |
| Reporting.OneTopicGainTable | src/lib.rs:42-59 | judgments of one real topic give an `ideal_gain` table holding that topic alone, with the `dcg` of its gain vector |
| Reporting.OneTopicRows | src/lib.rs:74-119 | a run of one real topic prints exactly one row, scored on the gains of all its entries |
| Reporting.IdealTables | src/lib.rs:40-59 | example: `ideal_gain` maps T1 to `dcg(3, [3, 2, 1])`, and `judgments` maps `T1:d1`, `T1:d2`, `T1:d3` to 3, 2 and 1 |
| Reporting.IdealRows | src/lib.rs:74-119 | example: scored against those tables, the run prints one row, T1 with NDCG 1 and ERR 1385/1536 |
| Reporting.IdealRunReport | src/lib.rs:12-123 | example: from the judgment lines and run lines above at cutoff 3, the report is run R, one row for T1 with NDCG 1 and ERR 1385/1536, and those values as the means |

## Behaviour of the code

The model follows `src/lib.rs`; these points are where the code says more
than a plain description of the tool would:

- **Zero judgments.** Judgments of relevance 0 or less are dropped when the
  qrels are read (lines 28-30). So the `relevance < 0` test at line 50 never
  fires. A topic judged only with zeros has no entry in `ideal_gain`. A
  document judged 0 counts as unjudged, with gain 0.
- **Topics without an ideal gain.** The scan works on the sorted run
  (lines 62-64), so its last topic is the run's greatest topic, not the topic
  of the file's last line. A topic that is not this last topic, and has no
  entry in `ideal_gain`, is not printed and not counted in the means
  (line 77). The last topic is always printed and counted when it is not
  empty (lines 105-119), with NDCG 0 when it has no ideal gain
  (`PrintedTopics`).
- **Row order.** The rows follow the sorted run, so they come in strictly
  ascending byte-wise topic order, not in the order of the file
  (`RowsInTopicOrder`).
- **Run id.** The run id comes from the first entry of the sorted run
  (line 69): an entry with the least topic and the highest score in it. It is
  not necessarily the first line of the file.
- **The empty topic.** The empty string doubles as "no topic yet" in both
  scans.
  - In the qrel scan, the relevances of an empty-topic block are not cleared.
    The sort puts that block first, so its relevances are counted in the ideal
    gain of the least real topic (`EmptyTopicAbsorbed`). That topic's NDCG
    can then exceed 1 (`EmptyTopicNdcgAboveOne`).
  - In the run scan, empty-topic entries are dropped.
  - A run whose topics are all empty prints no rows. Its `amean` line is
    `0/0`, which the model represents as an undefined mean (`None`).
- **Empty run.** `run[0]` on an empty run panics; the model gives
  `Failure(EmptyRun)`.
- **Repeated judgments.** When a qrels file judges the same document twice
  for a topic, `judgments` keeps the last insert (`JudgmentTableLastWins`).
  The sort puts the grades of a topic in descending order, so the last insert
  is the lowest grade (`SortedJudgmentLowest`). The ideal gain still counts
  every grade. For example, grades 3 and 1 give the document gain 1 in the
  run, while the ideal gain vector is `[3, 1]`.
- **Judgment keys.** A key is `topic:docid`. Two different pairs can share a
  key when a topic or docid contains `:`; the model keeps the same key and
  the same collision.

## Left out

- Command-line handling (`Config::new`, `Config::usage`, `main.rs`), opening and reading files, and printing: the model takes the files as sequences of lines and returns the rows and means as a value.
- Floating point: scores, discounts and means are exact reals. So the model does not show rounding, NaN or infinities. The five-decimal formatting of the output is also not modelled.
- `f64::log` is replaced by the parameter `disc`, about which only `disc(0) == 1` and positivity are assumed. So the exact value 9.392789260714371 of the `dcg_calculate` tests is not stated; the cutoff-1 value 7 is (`Metrics.DcgTopOnly`).
- `f64` parsing of scores is the parameter `parseScore`; a parse failure is an error result.
- Metrics.Pow2: `2_i32.pow(n)` overflows for grades of 31 or more. The model uses exact powers of two, so it agrees with the code only for grades up to 30.
- Entries.RunLeMeaning: `partial_cmp(...).unwrap()` panics when a score is NaN. Real-valued scores have no NaN, so this panic is not modelled.
- Sorting.SortBy: `Vec::sort_by` is a stable merge sort, and the model uses a stable insertion sort. Two stable sorts by the same total preorder give the same result, but that equivalence is not proved here.
- Panics and `unwrap` failures on malformed lines become `Failure` results (`Evaluation.EvalError`), not process aborts.
