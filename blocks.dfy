/**
 * The grouping performed by the two "current topic changed" scans of the
 * evaluator (one over the judgments, one over the run).
 *
 * Both scans walk a sequence keeping a current topic, which starts as the
 * empty string; when an entry's topic differs from the current one, the
 * collected block is closed only if the current topic is not empty. A block
 * is therefore closed at every change of topic, EXCEPT that a block whose
 * topic is the empty string is never closed: the next topic takes it over,
 * entries and all. `Group` lists the blocks a scan sees, each labelled with
 * the topic current at its end. The topic type is kept abstract (`K`, with
 * `none` standing for the empty string) because nothing here depends on
 * topics being strings.
 */
module Blocks {
  import opened Sorting

  datatype Block<T, K> = Block(topic: K, items: seq<T>)

  /**
   * One step of the scan: entry `x` joins the last block when that block has
   * the same topic or the empty topic (and the block takes `x`'s topic), and
   * opens a new block otherwise.
   */
  function Step<T, K(==)>(bs: seq<Block<T, K>>, x: T, topicOf: T -> K, none: K): (bs': seq<Block<T, K>>)
    ensures bs' != [] && bs'[|bs'| - 1].topic == topicOf(x)
  {
    if bs != [] && (bs[|bs| - 1].topic == topicOf(x) || bs[|bs| - 1].topic == none) then
      bs[..|bs| - 1] + [Block(topicOf(x), bs[|bs| - 1].items + [x])]
    else
      bs + [Block(topicOf(x), [x])]
  }

  /** The blocks a scan over `xs` sees, in order. */
  function Group<T, K(==)>(xs: seq<T>, topicOf: T -> K, none: K): (bs: seq<Block<T, K>>)
    ensures xs == [] <==> bs == []
    ensures xs != [] ==> bs[|bs| - 1].topic == topicOf(xs[|xs| - 1])
    decreases |xs|
  {
    if xs == [] then [] else Step(Group(xs[..|xs| - 1], topicOf, none), xs[|xs| - 1], topicOf, none)
  }

  lemma GroupSnoc<T, K>(xs: seq<T>, x: T, topicOf: T -> K, none: K)
    ensures Group(xs + [x], topicOf, none) == Step(Group(xs, topicOf, none), x, topicOf, none)
  {
    assert (xs + [x])[..|xs|] == xs;
  }

  /** `Group` of one more entry of `xs`. */
  lemma GroupPrefix<T, K>(xs: seq<T>, i: nat, topicOf: T -> K, none: K)
    requires i < |xs|
    ensures Group(xs[..i + 1], topicOf, none) == Step(Group(xs[..i], topicOf, none), xs[i], topicOf, none)
  {
    assert xs[..i + 1][..i] == xs[..i];
  }

  /** All items of the blocks, in order. */
  function Flatten<T, K>(bs: seq<Block<T, K>>): seq<T>
    decreases |bs|
  {
    if bs == [] then [] else Flatten(bs[..|bs| - 1]) + bs[|bs| - 1].items
  }

  lemma FlattenSnoc<T, K>(bs: seq<Block<T, K>>, b: Block<T, K>)
    ensures Flatten(bs + [b]) == Flatten(bs) + b.items
  {
    assert (bs + [b])[..|bs|] == bs;
  }

  lemma StepFlattens<T, K>(bs: seq<Block<T, K>>, x: T, topicOf: T -> K, none: K)
    ensures Flatten(Step(bs, x, topicOf, none)) == Flatten(bs) + [x]
  {
    if bs != [] && (bs[|bs| - 1].topic == topicOf(x) || bs[|bs| - 1].topic == none) {
      var front, last := bs[..|bs| - 1], bs[|bs| - 1];
      assert bs == front + [last];
      FlattenSnoc(front, last);
      FlattenSnoc(front, Block(topicOf(x), last.items + [x]));
    } else {
      FlattenSnoc(bs, Block(topicOf(x), [x]));
    }
  }

  /** The blocks cut `xs` into consecutive pieces: nothing is lost, added or moved. */
  lemma {:induction false} GroupFlattens<T, K>(xs: seq<T>, topicOf: T -> K, none: K)
    ensures Flatten(Group(xs, topicOf, none)) == xs
    decreases |xs|
  {
    if xs != [] {
      var init, x := xs[..|xs| - 1], xs[|xs| - 1];
      assert xs == init + [x];
      GroupFlattens(init, topicOf, none);
      StepFlattens(Group(init, topicOf, none), x, topicOf, none);
    }
  }

  /** Every block holds at least one entry, and every entry of a block belongs to `xs`. */
  ghost predicate BlocksWithin<T, K>(bs: seq<Block<T, K>>, xs: seq<T>) {
    forall i :: 0 <= i < |bs| ==> bs[i].items != [] && forall y :: y in bs[i].items ==> y in xs
  }

  lemma StepWithin<T, K>(bs: seq<Block<T, K>>, xs: seq<T>, x: T, topicOf: T -> K, none: K)
    requires BlocksWithin(bs, xs)
    ensures BlocksWithin(Step(bs, x, topicOf, none), xs + [x])
  {
    var bs' := Step(bs, x, topicOf, none);
    forall i | 0 <= i < |bs'| ensures bs'[i].items != [] && forall y :: y in bs'[i].items ==> y in xs + [x] {
      if i < |bs| - 1 || (i == |bs| - 1 && i < |bs'| - 1) {
        assert bs'[i] == bs[i];
      } else if i == |bs| - 1 {
        assert bs'[i].items == bs[i].items + [x];
      } else {
        assert bs'[i].items == [x];
      }
    }
  }

  lemma {:induction false} GroupBlocksNonEmpty<T, K>(xs: seq<T>, topicOf: T -> K, none: K)
    ensures BlocksWithin(Group(xs, topicOf, none), xs)
    decreases |xs|
  {
    if xs != [] {
      var init, x := xs[..|xs| - 1], xs[|xs| - 1];
      assert xs == init + [x];
      GroupBlocksNonEmpty(init, topicOf, none);
      StepWithin(Group(init, topicOf, none), init, x, topicOf, none);
    }
  }

  /** Every block but the last has a real topic. */
  ghost predicate ClosedHaveTopics<T, K>(bs: seq<Block<T, K>>, none: K) {
    forall i :: 0 <= i < |bs| - 1 ==> bs[i].topic != none
  }

  lemma StepClosed<T, K>(bs: seq<Block<T, K>>, x: T, topicOf: T -> K, none: K)
    requires ClosedHaveTopics(bs, none)
    ensures ClosedHaveTopics(Step(bs, x, topicOf, none), none)
  {
    var bs' := Step(bs, x, topicOf, none);
    forall i | 0 <= i < |bs'| - 1 ensures bs'[i].topic != none {
      assert bs'[i] == bs[i];
    }
  }

  /** Only the last block can carry the empty topic: every block the scan closed has a real topic. */
  lemma {:induction false} ClosedBlocksHaveTopics<T, K>(xs: seq<T>, topicOf: T -> K, none: K)
    ensures ClosedHaveTopics(Group(xs, topicOf, none), none)
    decreases |xs|
  {
    if xs != [] {
      var init, x := xs[..|xs| - 1], xs[|xs| - 1];
      assert xs == init + [x];
      ClosedBlocksHaveTopics(init, topicOf, none);
      StepClosed(Group(init, topicOf, none), x, topicOf, none);
    }
  }

  /** The topics the blocks are labelled with. */
  function BlockTopics<T, K(==)>(bs: seq<Block<T, K>>): set<K>
    decreases |bs|
  {
    if bs == [] then {} else BlockTopics(bs[..|bs| - 1]) + {bs[|bs| - 1].topic}
  }

  lemma BlockTopicsSnoc<T, K>(bs: seq<Block<T, K>>, b: Block<T, K>)
    ensures BlockTopics(bs + [b]) == BlockTopics(bs) + {b.topic}
  {
    assert (bs + [b])[..|bs|] == bs;
  }

  /** The topics of the entries. */
  function Topics<T, K(==)>(xs: seq<T>, topicOf: T -> K): set<K>
    decreases |xs|
  {
    if xs == [] then {} else Topics(xs[..|xs| - 1], topicOf) + {topicOf(xs[|xs| - 1])}
  }

  lemma StepTopics<T, K>(bs: seq<Block<T, K>>, x: T, topicOf: T -> K, none: K)
    ensures BlockTopics(Step(bs, x, topicOf, none)) - {none} == (BlockTopics(bs) + {topicOf(x)}) - {none}
  {
    if bs != [] && (bs[|bs| - 1].topic == topicOf(x) || bs[|bs| - 1].topic == none) {
      var front, last := bs[..|bs| - 1], bs[|bs| - 1];
      assert bs == front + [last];
      BlockTopicsSnoc(front, last);
      BlockTopicsSnoc(front, Block(topicOf(x), last.items + [x]));
    } else {
      BlockTopicsSnoc(bs, Block(topicOf(x), [x]));
    }
  }

  /** Apart from the empty topic, the blocks are labelled with exactly the topics of the entries. */
  lemma {:induction false} GroupTopics<T, K>(xs: seq<T>, topicOf: T -> K, none: K)
    ensures BlockTopics(Group(xs, topicOf, none)) - {none} == Topics(xs, topicOf) - {none}
    decreases |xs|
  {
    if xs != [] {
      var init, x := xs[..|xs| - 1], xs[|xs| - 1];
      assert xs == init + [x];
      var bs := Group(init, topicOf, none);
      calc {
        BlockTopics(Group(xs, topicOf, none)) - {none};
        BlockTopics(Step(bs, x, topicOf, none)) - {none};
        { StepTopics(bs, x, topicOf, none); }
        (BlockTopics(bs) - {none}) + ({topicOf(x)} - {none});
        { GroupTopics(init, topicOf, none); }
        (Topics(init, topicOf) - {none}) + ({topicOf(x)} - {none});
        (Topics(init, topicOf) + {topicOf(x)}) - {none};
        Topics(xs, topicOf) - {none};
      }
    }
  }

  /** The topic a scan holds after seeing the blocks `bs`: `none` before the first entry. */
  function CurrentTopic<T, K>(bs: seq<Block<T, K>>, none: K): K {
    if bs == [] then none else bs[|bs| - 1].topic
  }

  /** The entries a scan has collected for its current topic. */
  function CurrentItems<T, K>(bs: seq<Block<T, K>>): seq<T> {
    if bs == [] then [] else bs[|bs| - 1].items
  }

  /** The blocks a scan has already closed. */
  function Closed<T, K>(bs: seq<Block<T, K>>): seq<Block<T, K>> {
    if bs == [] then [] else bs[..|bs| - 1]
  }

  /**
   * What one step does to the scan's state: an entry whose topic is the
   * current one, or arrives while the current topic is empty, joins the
   * current block; any other entry closes the current block and opens a new one.
   */
  lemma StepState<T, K>(bs: seq<Block<T, K>>, x: T, topicOf: T -> K, none: K)
    ensures CurrentTopic(Step(bs, x, topicOf, none), none) == topicOf(x)
    ensures CurrentTopic(bs, none) == topicOf(x) || CurrentTopic(bs, none) == none ==>
      Closed(Step(bs, x, topicOf, none)) == Closed(bs) &&
      CurrentItems(Step(bs, x, topicOf, none)) == CurrentItems(bs) + [x]
    ensures CurrentTopic(bs, none) != topicOf(x) && CurrentTopic(bs, none) != none ==>
      Closed(Step(bs, x, topicOf, none)) == Closed(bs) + [Block(CurrentTopic(bs, none), CurrentItems(bs))] &&
      CurrentItems(Step(bs, x, topicOf, none)) == [x]
  {
    if bs != [] {
      assert bs == bs[..|bs| - 1] + [bs[|bs| - 1]];
    }
  }

  /** The blocks seen so far are the closed ones followed by the current one. */
  lemma ClosedThenCurrent<T, K>(bs: seq<Block<T, K>>, none: K)
    requires bs != []
    ensures bs == Closed(bs) + [Block(CurrentTopic(bs, none), CurrentItems(bs))]
  {
  }

  /** The entries of `xs` whose topic is `t`, in order. */
  function WithTopic<T, K(==)>(xs: seq<T>, topicOf: T -> K, t: K): (ys: seq<T>)
    ensures forall y :: y in ys ==> y in xs && topicOf(y) == t
    decreases |xs|
  {
    if xs == [] then []
    else
      var x := xs[|xs| - 1];
      WithTopic(xs[..|xs| - 1], topicOf, t) + (if topicOf(x) == t then [x] else [])
  }

  lemma WithTopicSnoc<T, K>(xs: seq<T>, x: T, topicOf: T -> K, t: K)
    ensures WithTopic(xs + [x], topicOf, t) == WithTopic(xs, topicOf, t) + (if topicOf(x) == t then [x] else [])
  {
    assert (xs + [x])[..|xs|] == xs;
  }

  /** Picking out one topic keeps the order of the entries. */
  lemma {:induction false} WithTopicSorted<T, K>(xs: seq<T>, topicOf: T -> K, t: K, le: (T, T) -> bool)
    requires SortedBy(xs, le)
    ensures SortedBy(WithTopic(xs, topicOf, t), le)
    decreases |xs|
  {
    if xs != [] {
      var init, x := xs[..|xs| - 1], xs[|xs| - 1];
      assert xs == init + [x];
      WithTopicSorted(init, topicOf, t, le);
      var ws := WithTopic(init, topicOf, t);
      forall y | y in ws ensures le(y, x) {
        var i :| 0 <= i < |init| && init[i] == y;
        assert xs[i] == y;
      }
    }
  }

  /** How often an entry occurs among those of topic `t`. */
  lemma {:induction false} WithTopicCount<T, K>(xs: seq<T>, topicOf: T -> K, t: K, y: T)
    ensures multiset(WithTopic(xs, topicOf, t))[y] == if topicOf(y) == t then multiset(xs)[y] else 0
    decreases |xs|
  {
    if xs != [] {
      var init, x := xs[..|xs| - 1], xs[|xs| - 1];
      assert xs == init + [x];
      WithTopicCount(init, topicOf, t, y);
    }
  }

  /** Rearranging the entries rearranges the entries of each topic: every entry occurs as often in both. */
  lemma {:induction false} WithTopicPermutes<T, K>(xs: seq<T>, ys: seq<T>, topicOf: T -> K, t: K)
    requires multiset(xs) == multiset(ys)
    ensures forall y :: multiset(WithTopic(xs, topicOf, t))[y] == multiset(WithTopic(ys, topicOf, t))[y]
  {
    forall y ensures multiset(WithTopic(xs, topicOf, t))[y] == multiset(WithTopic(ys, topicOf, t))[y] {
      WithTopicCount(xs, topicOf, t, y);
      WithTopicCount(ys, topicOf, t, y);
    }
  }

  /** A topic the blocks carry is the topic of one of them. */
  lemma {:induction false} BlockTopicsIndex<T, K>(bs: seq<Block<T, K>>, t: K)
    requires t in BlockTopics(bs)
    ensures exists i :: 0 <= i < |bs| && bs[i].topic == t
    decreases |bs|
  {
    var init := bs[..|bs| - 1];
    if t != bs[|bs| - 1].topic {
      BlockTopicsIndex(init, t);
      var i :| 0 <= i < |init| && init[i].topic == t;
      assert bs[i] == init[i];
    }
  }

  /** A topic some entry carries is among the topics of the sequence. */
  lemma {:induction false} WithTopicNonEmpty<T, K>(xs: seq<T>, topicOf: T -> K, t: K)
    requires WithTopic(xs, topicOf, t) != []
    ensures t in Topics(xs, topicOf)
    decreases |xs|
  {
    var init := xs[..|xs| - 1];
    if topicOf(xs[|xs| - 1]) != t {
      WithTopicNonEmpty(init, topicOf, t);
    }
  }

  /** Every block of a grouping holds at least one entry. */
  lemma GroupBlockNonEmpty<T, K>(xs: seq<T>, topicOf: T -> K, none: K, i: nat)
    requires i < |Group(xs, topicOf, none)|
    ensures Group(xs, topicOf, none)[i].items != []
  {
    GroupBlocksNonEmpty(xs, topicOf, none);
  }

  /** When topics stand together, two blocks of a grouping have different topics. */
  lemma GroupBlocksDiffer<T, K>(xs: seq<T>, topicOf: T -> K, none: K, i: nat, j: nat)
    requires Contiguous(xs, topicOf) && NoEmptyTopic(xs, topicOf, none)
    requires i < j < |Group(xs, topicOf, none)|
    ensures Group(xs, topicOf, none)[i].topic != Group(xs, topicOf, none)[j].topic
  {
    GroupContiguous(xs, topicOf, none);
  }

  /** When topics stand together, a block holds all entries of its topic, in order. */
  lemma GroupBlockCollects<T, K>(xs: seq<T>, topicOf: T -> K, none: K, i: nat)
    requires Contiguous(xs, topicOf) && NoEmptyTopic(xs, topicOf, none)
    requires i < |Group(xs, topicOf, none)|
    ensures Group(xs, topicOf, none)[i].items == WithTopic(xs, topicOf, Group(xs, topicOf, none)[i].topic)
  {
    GroupContiguous(xs, topicOf, none);
  }

  /** The topic of every entry is among the topics of the sequence. */
  lemma {:induction false} TopicsMember<T, K>(xs: seq<T>, topicOf: T -> K, i: nat)
    requires i < |xs|
    ensures topicOf(xs[i]) in Topics(xs, topicOf)
    decreases |xs|
  {
    if i < |xs| - 1 {
      var init := xs[..|xs| - 1];
      assert init[i] == xs[i];
      TopicsMember(init, topicOf, i);
    }
  }

  lemma {:induction false} TopicsIndex<T, K>(xs: seq<T>, topicOf: T -> K, t: K)
    requires t in Topics(xs, topicOf)
    ensures exists i :: 0 <= i < |xs| && topicOf(xs[i]) == t
    decreases |xs|
  {
    var init := xs[..|xs| - 1];
    if t != topicOf(xs[|xs| - 1]) {
      TopicsIndex(init, topicOf, t);
      var i :| 0 <= i < |init| && topicOf(init[i]) == t;
      assert xs[i] == init[i];
    }
  }

  /** Entries of one topic stand together: between two entries of a topic there is no other topic. */
  ghost predicate Contiguous<T, K>(xs: seq<T>, topicOf: T -> K) {
    forall i, j :: 0 <= i < j < |xs| && topicOf(xs[i]) == topicOf(xs[j]) ==>
      forall k :: i <= k <= j ==> topicOf(xs[k]) == topicOf(xs[i])
  }

  /** No entry of `xs` has the empty topic. */
  ghost predicate NoEmptyTopic<T, K>(xs: seq<T>, topicOf: T -> K, none: K) {
    forall i :: 0 <= i < |xs| ==> topicOf(xs[i]) != none
  }

  /** The block topics, in order, are all different. */
  ghost predicate DistinctTopics<T, K>(bs: seq<Block<T, K>>) {
    forall i, j :: 0 <= i < j < |bs| ==> bs[i].topic != bs[j].topic
  }

  /** Each block holds all entries of its topic, in order. */
  ghost predicate BlocksCollectTopics<T, K>(bs: seq<Block<T, K>>, xs: seq<T>, topicOf: T -> K) {
    forall i :: 0 <= i < |bs| ==> bs[i].items == WithTopic(xs, topicOf, bs[i].topic)
  }

  /**
   * When the entries of each topic stand together and none has the empty
   * topic, the scan sees exactly one block per topic, and that block holds
   * all entries of the topic, in order.
   */
  lemma {:induction false} GroupContiguous<T, K>(xs: seq<T>, topicOf: T -> K, none: K)
    requires Contiguous(xs, topicOf) && NoEmptyTopic(xs, topicOf, none)
    ensures DistinctTopics(Group(xs, topicOf, none))
    ensures BlocksCollectTopics(Group(xs, topicOf, none), xs, topicOf)
    decreases |xs|
  {
    if xs != [] {
      var init, x := xs[..|xs| - 1], xs[|xs| - 1];
      var bs := Group(init, topicOf, none);
      assert xs == init + [x];
      forall i | 0 <= i < |init| ensures topicOf(init[i]) != none {
        assert init[i] == xs[i];
      }
      GroupContiguous(init, topicOf, none);
      if bs != [] && bs[|bs| - 1].topic == topicOf(x) {
        JoinLastBlock(bs, init, x, topicOf);
        assert Step(bs, x, topicOf, none) == bs[..|bs| - 1] + [Block(topicOf(x), bs[|bs| - 1].items + [x])];
      } else {
        if bs != [] {
          NewTopicIsNew(xs, topicOf);
        }
        GroupBlocksNonEmpty(init, topicOf, none);
        OpenNewBlock(bs, init, x, topicOf, none);
      }
    }
  }

  /** Under the same conditions, each topic of the entries has its block, holding all its entries. */
  lemma {:induction false} TopicBlock<T, K>(xs: seq<T>, topicOf: T -> K, none: K, t: K) returns (i: nat)
    requires Contiguous(xs, topicOf) && NoEmptyTopic(xs, topicOf, none)
    requires t in Topics(xs, topicOf)
    ensures t != none
    ensures i < |Group(xs, topicOf, none)| && Group(xs, topicOf, none)[i].topic == t
    ensures Group(xs, topicOf, none)[i].items == WithTopic(xs, topicOf, t)
  {
    var bs := Group(xs, topicOf, none);
    GroupContiguous(xs, topicOf, none);
    TopicsIndex(xs, topicOf, t);
    GroupTopics(xs, topicOf, none);
    assert t != none;
    assert t in Topics(xs, topicOf) - {none};
    BlockTopicsIndex(bs, t);
    i :| 0 <= i < |bs| && bs[i].topic == t;
  }

  /** Under the same conditions, every block's topic is the topic of some entry. */
  lemma BlockTopicOfEntry<T, K>(xs: seq<T>, topicOf: T -> K, none: K, i: nat) returns (p: nat)
    requires Contiguous(xs, topicOf) && NoEmptyTopic(xs, topicOf, none)
    requires i < |Group(xs, topicOf, none)|
    ensures p < |xs| && topicOf(xs[p]) == Group(xs, topicOf, none)[i].topic
  {
    var b := Group(xs, topicOf, none)[i];
    GroupBlockCollects(xs, topicOf, none, i);
    GroupBlockNonEmpty(xs, topicOf, none, i);
    assert b.items[0] in WithTopic(xs, topicOf, b.topic);
    p :| 0 <= p < |xs| && xs[p] == b.items[0];
  }

  /**
   * Under the same conditions, the blocks come in the order of the entries:
   * when every entry's topic is `le` every later entry's, every block's topic
   * is `le` every later block's.
   */
  lemma {:induction false} GroupOrdered<T, K>(xs: seq<T>, topicOf: T -> K, none: K, le: (K, K) -> bool)
    requires Contiguous(xs, topicOf) && NoEmptyTopic(xs, topicOf, none)
    requires forall i, j :: 0 <= i < j < |xs| ==> le(topicOf(xs[i]), topicOf(xs[j]))
    ensures forall i, j :: 0 <= i < j < |Group(xs, topicOf, none)| ==>
      le(Group(xs, topicOf, none)[i].topic, Group(xs, topicOf, none)[j].topic)
    decreases |xs|
  {
    if xs != [] {
      var init, x := xs[..|xs| - 1], xs[|xs| - 1];
      var bs := Group(init, topicOf, none);
      assert xs == init + [x];
      assert forall i :: 0 <= i < |init| ==> init[i] == xs[i];
      GroupOrdered(init, topicOf, none, le);
      var bs' := Group(xs, topicOf, none);
      if bs != [] && bs[|bs| - 1].topic == topicOf(x) {
        assert bs' == bs[..|bs| - 1] + [Block(topicOf(x), bs[|bs| - 1].items + [x])];
        forall i, j | 0 <= i < j < |bs'| ensures le(bs'[i].topic, bs'[j].topic) {
          assert bs'[i].topic == bs[i].topic && bs'[j].topic == bs[j].topic;
        }
      } else {
        assert bs' == bs + [Block(topicOf(x), [x])];
        forall i, j | 0 <= i < j < |bs'| ensures le(bs'[i].topic, bs'[j].topic) {
          if j == |bs| {
            var p := BlockTopicOfEntry(init, topicOf, none, i);
            assert xs[p] == init[p];
          } else {
            assert bs'[i] == bs[i] && bs'[j] == bs[j];
          }
        }
      }
    }
  }

  /** `GroupContiguous`, when the last entry joins the last block. */
  lemma JoinLastBlock<T, K>(bs: seq<Block<T, K>>, init: seq<T>, x: T, topicOf: T -> K)
    requires bs != []
    requires DistinctTopics(bs) && BlocksCollectTopics(bs, init, topicOf)
    requires bs[|bs| - 1].topic == topicOf(x)
    ensures var bs' := bs[..|bs| - 1] + [Block(topicOf(x), bs[|bs| - 1].items + [x])];
      DistinctTopics(bs') && BlocksCollectTopics(bs', init + [x], topicOf)
  {
    var bs' := bs[..|bs| - 1] + [Block(topicOf(x), bs[|bs| - 1].items + [x])];
    forall i | 0 <= i < |bs'| ensures bs'[i].items == WithTopic(init + [x], topicOf, bs'[i].topic) {
      WithTopicSnoc(init, x, topicOf, bs'[i].topic);
      if i < |bs| - 1 {
        assert bs'[i] == bs[i];
      }
    }
    forall i, j | 0 <= i < j < |bs'| ensures bs'[i].topic != bs'[j].topic {
      assert bs'[i].topic == bs[i].topic && bs'[j].topic == bs[j].topic;
    }
  }

  /** No entry of `xs` has topic `t`, so none is collected for it. */
  lemma {:induction false} WithAbsentTopic<T, K>(xs: seq<T>, topicOf: T -> K, t: K)
    requires forall y :: y in xs ==> topicOf(y) != t
    ensures WithTopic(xs, topicOf, t) == []
    decreases |xs|
  {
    if xs != [] {
      var init := xs[..|xs| - 1];
      assert forall y :: y in init ==> y in xs;
      WithAbsentTopic(init, topicOf, t);
    }
  }

  /** `GroupContiguous`, when the last entry opens a new block. */
  lemma OpenNewBlock<T, K>(bs: seq<Block<T, K>>, init: seq<T>, x: T, topicOf: T -> K, none: K)
    requires BlocksWithin(bs, init)
    requires DistinctTopics(bs) && BlocksCollectTopics(bs, init, topicOf)
    requires forall y :: y in init ==> topicOf(y) != topicOf(x)
    ensures DistinctTopics(bs + [Block(topicOf(x), [x])])
    ensures BlocksCollectTopics(bs + [Block(topicOf(x), [x])], init + [x], topicOf)
  {
    var bs' := bs + [Block(topicOf(x), [x])];
    WithAbsentTopic(init, topicOf, topicOf(x));
    forall i | 0 <= i < |bs| ensures bs[i].topic != topicOf(x) {
      assert bs[i].items[0] in WithTopic(init, topicOf, bs[i].topic);
    }
    forall i | 0 <= i < |bs'| ensures bs'[i].items == WithTopic(init + [x], topicOf, bs'[i].topic) {
      WithTopicSnoc(init, x, topicOf, bs'[i].topic);
      if i < |bs| {
        assert bs'[i] == bs[i];
      }
    }
  }

  /**
   * In a sequence whose topics stand together, an entry whose topic differs
   * from its left neighbour's has a topic that occurs nowhere to its left.
   */
  lemma NewTopicIsNew<T, K>(xs: seq<T>, topicOf: T -> K)
    requires Contiguous(xs, topicOf) && |xs| >= 2
    requires topicOf(xs[|xs| - 2]) != topicOf(xs[|xs| - 1])
    ensures forall y :: y in xs[..|xs| - 1] ==> topicOf(y) != topicOf(xs[|xs| - 1])
  {
    var n := |xs|;
    forall i | 0 <= i < n - 1 ensures topicOf(xs[i]) != topicOf(xs[n - 1]) {
      var here, before, last := topicOf(xs[i]), topicOf(xs[n - 2]), topicOf(xs[n - 1]);
      assert here == last ==> before == here;
    }
  }

  // ---------------------------------------------------------------------
  // Entries with the empty topic in front

  /** The empty-topic entries in front of a sequence, absorbed into its first block. */
  function Absorb<T, K>(items: seq<T>, bs: seq<Block<T, K>>): (bs': seq<Block<T, K>>)
    requires bs != []
    ensures |bs'| == |bs| && bs'[0] == Block(bs[0].topic, items + bs[0].items)
    ensures forall i :: 0 < i < |bs| ==> bs'[i] == bs[i]
  {
    [Block(bs[0].topic, items + bs[0].items)] + bs[1..]
  }

  /** Entries that all have one topic form a single block; for the empty topic, a block that is never closed. */
  lemma {:induction false} GroupOneTopic<T, K>(xs: seq<T>, topicOf: T -> K, none: K, t: K)
    requires forall i :: 0 <= i < |xs| ==> topicOf(xs[i]) == t
    ensures xs != [] ==> Group(xs, topicOf, none) == [Block(t, xs)]
    decreases |xs|
  {
    if xs != [] {
      var init := xs[..|xs| - 1];
      assert xs == init + [xs[|xs| - 1]];
      GroupOneTopic(init, topicOf, none, t);
    }
  }

  /** A non-empty list of entries of one topic forms exactly one block. */
  lemma GroupSingleTopic<T, K>(xs: seq<T>, topicOf: T -> K, none: K, t: K)
    requires xs != []
    requires forall i :: 0 <= i < |xs| ==> topicOf(xs[i]) == t
    ensures Group(xs, topicOf, none) == [Block(t, xs)]
  {
    GroupOneTopic(xs, topicOf, none, t);
  }

  /** A step of the scan commutes with absorbing entries into the first block. */
  lemma StepAbsorb<T, K>(es: seq<T>, g: seq<Block<T, K>>, y: T, topicOf: T -> K, none: K)
    requires g != []
    ensures Step(Absorb(es, g), y, topicOf, none) == Absorb(es, Step(g, y, topicOf, none))
  {
    var a := Absorb(es, g);
    var last := g[|g| - 1];
    assert a[|a| - 1].topic == last.topic;
    var l := Step(a, y, topicOf, none);
    var r := Absorb(es, Step(g, y, topicOf, none));
    if last.topic == topicOf(y) || last.topic == none {
      if |g| == 1 {
        assert es + (g[0].items + [y]) == (es + g[0].items) + [y];
      } else {
        assert |l| == |r|;
        forall i | 0 <= i < |l| ensures l[i] == r[i] {
          if i == |l| - 1 {
            assert a[|a| - 1] == last;
          }
        }
      }
    } else {
      assert |l| == |r|;
      forall i | 0 <= i < |l| ensures l[i] == r[i] {
      }
    }
  }

  /**
   * A scan that starts with entries of the empty topic hands them to the
   * first real block: the blocks are those of the rest, with the empty-topic
   * entries put in front of the first one.
   */
  lemma {:induction false} GroupAfterNone<T, K>(es: seq<T>, ys: seq<T>, topicOf: T -> K, none: K)
    requires forall i :: 0 <= i < |es| ==> topicOf(es[i]) == none
    requires ys != []
    ensures Group(es + ys, topicOf, none) == Absorb(es, Group(ys, topicOf, none))
    decreases |ys|
  {
    var init, y := ys[..|ys| - 1], ys[|ys| - 1];
    assert ys == init + [y];
    assert es + ys == (es + init) + [y];
    GroupSnoc(es + init, y, topicOf, none);
    GroupSnoc(init, y, topicOf, none);
    if init == [] {
      assert es + init == es;
      GroupOneTopic(es, topicOf, none, none);
    } else {
      GroupAfterNone(es, init, topicOf, none);
      StepAbsorb(es, Group(init, topicOf, none), y, topicOf, none);
    }
  }

  /** With no empty topic, the first block has the topic of the first entry. */
  lemma {:induction false} GroupFirstTopic<T, K>(xs: seq<T>, topicOf: T -> K, none: K)
    requires xs != [] && NoEmptyTopic(xs, topicOf, none)
    ensures Group(xs, topicOf, none)[0].topic == topicOf(xs[0])
    decreases |xs|
  {
    var init, x := xs[..|xs| - 1], xs[|xs| - 1];
    if init != [] {
      assert NoEmptyTopic(init, topicOf, none) by {
        forall i | 0 <= i < |init| ensures topicOf(init[i]) != none {
          assert init[i] == xs[i];
        }
      }
      GroupFirstTopic(init, topicOf, none);
      assert init[0] == xs[0];
    }
  }

  /** The entries of the empty topic all come before the others. */
  ghost predicate NoneFirst<T, K>(xs: seq<T>, topicOf: T -> K, none: K) {
    forall i, j :: 0 <= i < j < |xs| && topicOf(xs[j]) == none ==> topicOf(xs[i]) == none
  }

  /** Picking a topic out of two pieces picks it out of each. */
  lemma {:induction false} WithTopicAppend<T, K>(xs: seq<T>, ys: seq<T>, topicOf: T -> K, t: K)
    ensures WithTopic(xs + ys, topicOf, t) == WithTopic(xs, topicOf, t) + WithTopic(ys, topicOf, t)
    decreases |ys|
  {
    if ys != [] {
      var init, y := ys[..|ys| - 1], ys[|ys| - 1];
      assert ys == init + [y];
      assert xs + ys == (xs + init) + [y];
      WithTopicAppend(xs, init, topicOf, t);
      WithTopicSnoc(xs + init, y, topicOf, t);
      WithTopicSnoc(init, y, topicOf, t);
    } else {
      assert xs + ys == xs;
    }
  }

  /**
   * When the empty-topic entries come first, they are exactly the first
   * `|WithTopic(xs, topicOf, none)|` entries.
   */
  lemma {:induction false} NoneFirstSplit<T, K>(xs: seq<T>, topicOf: T -> K, none: K)
    requires NoneFirst(xs, topicOf, none)
    ensures |WithTopic(xs, topicOf, none)| <= |xs|
    ensures WithTopic(xs, topicOf, none) == xs[..|WithTopic(xs, topicOf, none)|]
    ensures forall i :: 0 <= i < |WithTopic(xs, topicOf, none)| ==> topicOf(xs[i]) == none
    ensures forall i :: |WithTopic(xs, topicOf, none)| <= i < |xs| ==> topicOf(xs[i]) != none
    decreases |xs|
  {
    if xs != [] {
      var init, x := xs[..|xs| - 1], xs[|xs| - 1];
      assert xs == init + [x];
      assert NoneFirst(init, topicOf, none) by {
        forall i, j | 0 <= i < j < |init| && topicOf(init[j]) == none ensures topicOf(init[i]) == none {
          assert init[i] == xs[i] && init[j] == xs[j];
        }
      }
      NoneFirstSplit(init, topicOf, none);
      if topicOf(x) == none {
        forall i | 0 <= i < |init| ensures topicOf(init[i]) == none {
          assert init[i] == xs[i];
        }
        assert |WithTopic(init, topicOf, none)| == |init|;
      } else {
        forall i | |WithTopic(xs, topicOf, none)| <= i < |xs| ensures topicOf(xs[i]) != none {
          if i < |init| {
            assert xs[i] == init[i];
          }
        }
      }
    }
  }
}
