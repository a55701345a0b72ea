/**
 * `KafkaHelper` of singupy/kafka.py with the broker replaced by its answers. It differs from
 * `MessageHandler` in two observable ways: `list_empty_topics` removes from the very list it
 * is given while iterating over it, and polling stops on last-read offsets (started at
 * begin - 1) rather than on consumer positions.
 */
module KafkaHelper {
  import opened Base
  import opened Broker
  import Latest

  /** The configured lists and the lists derived from them. */
  datatype Helper = Helper(consumed: seq<Topic>, produced: seq<Topic>, lists: TopicLists)

  /** The helper's derived lists are the ones its configuration determines, and the broker knows all its topics. */
  predicate Ready(h: Helper, b: Catalog) {
    && h.lists == DeriveTopicLists(h.consumed, h.produced)
    && Knows(b, h.lists.topicList)
  }

  /**
   * What seeking and polling read of the helper: the full topic list, derived from its
   * configuration and known to the broker. The `list_empty_*` calls shrink only the other lists,
   * so a helper keeps this through them.
   */
  predicate Pollable(h: Helper, b: Catalog) {
    && h.lists.topicList == DeriveTopicLists(h.consumed, h.produced).topicList
    && Knows(b, h.lists.topicList)
  }

  /** `KafkaHelper.__init__` without the connections: derive the lists, then exit (here: fail) unless every topic exists. */
  function NewHelper(consumed: seq<Topic>, produced: seq<Topic>, b: Catalog): (r: Result<Helper, seq<Topic>>)
    ensures r.Success? <==> Knows(b, consumed) && Knows(b, produced)
    ensures r.Failure? ==> forall t :: t in r.error <==> (t in consumed || t in produced) && t !in b
    ensures r.Success? ==> Ready(r.value, b)
    ensures r.Success? ==>
      var d := r.value.lists;
      && Elems(d.topicList) == Elems(consumed) + Elems(produced)
      && Elems(d.consumedOnly) == Elems(consumed) - Elems(produced)
      && Elems(d.producedOnly) == Elems(produced) - Elems(consumed)
      && Elems(d.consumedAndProduced) == Elems(consumed) * Elems(produced)
      && Elems(d.consumedOnly) !! Elems(d.producedOnly)
      && Elems(d.consumedOnly) !! Elems(d.consumedAndProduced)
      && Elems(d.producedOnly) !! Elems(d.consumedAndProduced)
      && Elems(d.consumedOnly) + Elems(d.producedOnly) + Elems(d.consumedAndProduced) == Elems(d.topicList)
  {
    var d := DeriveTopicLists(consumed, produced);
    assert forall t :: t in d.topicList <==> t in consumed || t in produced by {
      assert forall t :: t in d.topicList <==> t in Elems(d.topicList);
    }
    match VerifyTopicExistence(d.topicList, b)
    case Failure(missing) => Failure(missing)
    case Success(_) => Success(Helper(consumed, produced, d))
  }

  // ---------------------------------------------------------------------------------------------
  // Empty topics (in-place version)
  // ---------------------------------------------------------------------------------------------

  /** What `list.remove` leaves holds nothing that was not there before. */
  lemma RemovedFrom(xs: seq<Topic>, ys: seq<Topic>, k: nat, t: Topic)
    requires multiset(ys) + multiset(seq(k, _ => t)) == multiset(xs)
    ensures forall x :: x in ys ==> x in xs
  {
    forall x | x in ys ensures x in xs {
      assert x in multiset(ys);
      assert x in multiset(xs);
    }
  }

  /**
   * The `for topic in topic_list` loop of `list_empty_topics` while the body removes from the
   * same list: Python's iterator reads position `i` of the list as it is at that moment.
   */
  function Sweep(b: Catalog, xs: seq<Topic>, i: nat): Result<seq<Topic>, RemoveError>
    requires Knows(b, xs)
    decreases |xs| - i
  {
    if i >= |xs| then Success(xs)
    else
      var t := xs[i];
      match RemoveForPartitions(xs, t, b[t])
      case None => Failure(TopicNotInList(t))
      case Some(ys) =>
        RemoveForPartitionsCounts(xs, t, b[t]);
        RemovedFrom(xs, ys, NonEmptyCount(b[t]), t);
        Sweep(b, ys, i + 1)
  }

  /** One iteration of the in-place loop, when its removals succeed. */
  lemma SweepStep(b: Catalog, xs: seq<Topic>, i: nat, ys: seq<Topic>)
    requires Knows(b, xs) && i < |xs| && RemoveForPartitions(xs, xs[i], b[xs[i]]) == Some(ys)
    ensures Knows(b, ys) && Sweep(b, xs, i) == Sweep(b, ys, i + 1)
  {
    RemoveForPartitionsCounts(xs, xs[i], b[xs[i]]);
    RemovedFrom(xs, ys, NonEmptyCount(b[xs[i]]), xs[i]);
  }

  /** Prefixes a successful list result. */
  function Prefix(pre: seq<Topic>, r: Result<seq<Topic>, RemoveError>): Result<seq<Topic>, RemoveError> {
    match r
    case Success(v) => Success(pre + v)
    case Failure(e) => Failure(e)
  }

  /**
   * What the in-place loop leaves, stated over the list structure instead of positions: a topic
   * without data stays; a topic with data in one partition goes, and the topic after it is
   * skipped over, staying whatever its partitions hold; a topic with data in two or more
   * partitions makes the second `remove` fail.
   */
  function SkipRef(b: Catalog, xs: seq<Topic>): (r: Result<seq<Topic>, RemoveError>)
    requires Knows(b, xs)
    ensures r.Success? ==> IsSubsequence(r.value, xs)
    ensures r.Success? ==> forall t :: t in xs && NonEmptyCount(b[t]) == 0 ==> t in r.value
    ensures r.Failure? ==> r.error.topic in xs && NonEmptyCount(b[r.error.topic]) >= 2
    decreases |xs|
  {
    if xs == [] then Success([])
    else
      var k := NonEmptyCount(b[xs[0]]);
      assert xs == [xs[0]] + xs[1..];
      if k == 0 then
        Prefix([xs[0]], SkipRef(b, xs[1..]))
      else if k >= 2 then
        Failure(TopicNotInList(xs[0]))
      else if |xs| == 1 then
        Success([])
      else
        assert xs[1..] == [xs[1]] + xs[2..];
        var r := Prefix([xs[1]], SkipRef(b, xs[2..]));
        assert r.Success? ==> IsSubsequence(r.value, xs[1..]);
        r
  }

  /**
   * The in-place loop resumed at position |pre| of `pre + rest` (a list without repeats) keeps
   * `pre` and does to `rest` what the structural description says.
   */
  lemma {:induction false} SweepGeneral(b: Catalog, pre: seq<Topic>, rest: seq<Topic>)
    requires Knows(b, pre + rest) && Distinct(pre + rest)
    ensures Sweep(b, pre + rest, |pre|) == Prefix(pre, SkipRef(b, rest))
    decreases |rest|, 1
  {
    if rest == [] {
      assert pre + rest == pre + [];
    } else {
      var x, tail := rest[0], rest[1..];
      assert rest == [x] + tail;
      assert pre + rest == pre + [x] + tail;
      DistinctDrop(pre, x, tail);
      var k := NonEmptyCount(b[x]);
      if k == 0 {
        SweepKeep(b, pre, x, tail);
      } else if k == 1 {
        SweepDrop(b, pre, x, tail);
      } else {
        RemoveForPartitionsOnce(pre, x, tail, b[x]);
        assert (pre + [x] + tail)[|pre|] == x;
      }
    }
  }

  lemma PrefixAppend(a: seq<Topic>, c: seq<Topic>, r: Result<seq<Topic>, RemoveError>)
    ensures Prefix(a, Prefix(c, r)) == Prefix(a + c, r)
  {
    if r.Success? {
      assert a + (c + r.value) == (a + c) + r.value;
    }
  }

  /** The step for a topic without data: it stays, and the loop goes on with the next position. */
  lemma {:induction false} SweepKeep(b: Catalog, pre: seq<Topic>, x: Topic, tail: seq<Topic>)
    requires Knows(b, pre + [x] + tail) && Distinct(pre + [x] + tail) && x !in pre && x !in tail
    requires NonEmptyCount(b[x]) == 0
    ensures Sweep(b, pre + [x] + tail, |pre|) == Prefix(pre, SkipRef(b, [x] + tail))
    decreases |tail| + 1, 0
  {
    var xs := pre + [x] + tail;
    assert xs == (pre + [x]) + tail;
    assert Sweep(b, xs, |pre|) == Sweep(b, xs, |pre| + 1) by {
      assert xs[|pre|] == x;
      RemoveForPartitionsOnce(pre, x, tail, b[x]);
      SweepStep(b, xs, |pre|, xs);
    }
    SweepGeneral(b, pre + [x], tail);
    assert SkipRef(b, [x] + tail) == Prefix([x], SkipRef(b, tail)) by {
      assert ([x] + tail)[0] == x && ([x] + tail)[1..] == tail;
    }
    PrefixAppend(pre, [x], SkipRef(b, tail));
  }

  /** Removing the topic at position |pre| leaves `pre + tail`, and the loop moves on to position |pre| + 1. */
  lemma DropStep(b: Catalog, pre: seq<Topic>, x: Topic, tail: seq<Topic>)
    requires Knows(b, pre + [x] + tail) && x !in pre && x !in tail
    requires NonEmptyCount(b[x]) == 1
    ensures Knows(b, pre + tail)
    ensures Sweep(b, pre + [x] + tail, |pre|) == Sweep(b, pre + tail, |pre| + 1)
  {
    var xs := pre + [x] + tail;
    assert xs[|pre|] == x;
    RemoveForPartitionsOnce(pre, x, tail, b[x]);
    SweepStep(b, xs, |pre|, pre + tail);
  }

  /** The structural description at a topic with data in one partition. */
  lemma SkipRefDrop(b: Catalog, x: Topic, tail: seq<Topic>)
    requires Knows(b, [x] + tail) && NonEmptyCount(b[x]) == 1
    ensures tail == [] ==> SkipRef(b, [x] + tail) == Success([])
    ensures tail != [] ==> Knows(b, tail[1..]) && SkipRef(b, [x] + tail) == Prefix([tail[0]], SkipRef(b, tail[1..]))
  {
    var xs := [x] + tail;
    assert xs[0] == x;
    if tail != [] {
      assert xs[1] == tail[0] && xs[2..] == tail[1..];
    }
  }

  /** The step for a topic with data in one partition: it goes, and the loop's next position skips the topic after it. */
  lemma {:induction false} SweepDrop(b: Catalog, pre: seq<Topic>, x: Topic, tail: seq<Topic>)
    requires Knows(b, pre + [x] + tail) && Distinct(pre + tail) && x !in pre && x !in tail
    requires NonEmptyCount(b[x]) == 1
    ensures Sweep(b, pre + [x] + tail, |pre|) == Prefix(pre, SkipRef(b, [x] + tail))
    decreases |tail| + 1, 0
  {
    DropStep(b, pre, x, tail);
    SkipRefDrop(b, x, tail);
    if tail == [] {
      assert pre + tail == pre + [];
    } else {
      var y, tail2 := tail[0], tail[1..];
      assert pre + tail == (pre + [y]) + tail2 by {
        assert tail == [y] + tail2;
      }
      assert Knows(b, (pre + [y]) + tail2) && Distinct((pre + [y]) + tail2);
      SweepGeneral(b, pre + [y], tail2);
      PrefixAppend(pre, [y], SkipRef(b, tail2));
    }
  }

  /** `list_empty_topics(topic_list)` of this class: the list it returns is the argument after in-place removal. */
  function ListEmptyTopics(b: Catalog, topics: seq<Topic>): (r: Result<seq<Topic>, RemoveError>)
    requires Knows(b, topics)
    ensures Distinct(topics) ==> r == SkipRef(b, topics)
    ensures Distinct(topics) && r.Success? ==> IsSubsequence(r.value, topics)
  {
    if Distinct(topics) then
      assert [] + topics == topics;
      SweepGeneral(b, [], topics);
      match SkipRef(b, topics)
      case Success(v) =>
        assert [] + v == v;
        Sweep(b, topics, 0)
      case Failure(_) => Sweep(b, topics, 0)
    else
      Sweep(b, topics, 0)
  }

  /** No topic with data is directly followed by another topic with data. */
  predicate Spaced(b: Catalog, xs: seq<Topic>)
    requires Knows(b, xs)
  {
    forall i :: 0 <= i < |xs| - 1 ==> NonEmptyCount(b[xs[i]]) == 0 || NonEmptyCount(b[xs[i + 1]]) == 0
  }

  /**
   * The skipping is harmless exactly when topics with data never stand next to each other (and
   * none has two partitions with data): then the result is the list of empty topics.
   */
  lemma {:induction false} SpacedGivesEmptyTopics(b: Catalog, xs: seq<Topic>)
    requires Knows(b, xs) && Spaced(b, xs) && !HasBusyTopic(b, xs)
    ensures SkipRef(b, xs) == Success(EmptyTopicsIn(b, xs))
    decreases |xs|
  {
    if xs != [] {
      SpacedDrop(b, xs, 1);
      if NonEmptyCount(b[xs[0]]) == 0 {
        SpacedGivesEmptyTopics(b, xs[1..]);
      } else if |xs| > 1 {
        SpacedDrop(b, xs, 2);
        assert NonEmptyCount(b[xs[1]]) == 0 by {
          assert NonEmptyCount(b[xs[0]]) == 0 || NonEmptyCount(b[xs[1]]) == 0;
        }
        SpacedGivesEmptyTopics(b, xs[2..]);
        assert EmptyTopicsIn(b, xs[1..]) == [xs[1]] + EmptyTopicsIn(b, xs[2..]) by {
          assert xs[1..][0] == xs[1] && xs[1..][1..] == xs[2..];
        }
      }
    }
  }

  /** Dropping topics from the front keeps the list spaced and free of busy topics. */
  lemma SpacedDrop(b: Catalog, xs: seq<Topic>, k: nat)
    requires Knows(b, xs) && Spaced(b, xs) && !HasBusyTopic(b, xs) && k <= |xs|
    ensures Knows(b, xs[k..]) && Spaced(b, xs[k..]) && !HasBusyTopic(b, xs[k..])
  {
    forall i | 0 <= i < |xs[k..]| - 1
      ensures NonEmptyCount(b[xs[k..][i]]) == 0 || NonEmptyCount(b[xs[k..][i + 1]]) == 0
    {
      assert xs[k..][i] == xs[i + k] && xs[k..][i + 1] == xs[i + k + 1];
    }
  }

  /** Two adjacent topics with one non-empty partition each: the first goes, the second is never examined and stays. */
  lemma AdjacentTopicSkipped()
    ensures ListEmptyTopics(map["a" := [PartitionInfo(0, 0, 1)], "b" := [PartitionInfo(0, 0, 1)]], ["a", "b"])
         == Success(["b"])
  {
    var b := map["a" := [PartitionInfo(0, 0, 1)], "b" := [PartitionInfo(0, 0, 1)]];
    assert NonEmptyCount(b["a"]) == 1;
    assert ["a", "b"][1..] == ["b"] && ["a", "b"][2..] == [];
    assert SkipRef(b, ["a", "b"]) == Prefix(["b"], SkipRef(b, []));
    assert ["b"] + [] == ["b"];
  }

  /** A topic with two non-empty partitions is removed twice and the second removal fails. */
  lemma BusyTopicFails()
    ensures ListEmptyTopics(map["a" := [PartitionInfo(0, 0, 1), PartitionInfo(1, 3, 9)]], ["a"]) == Failure(TopicNotInList("a"))
  {
    var b := map["a" := [PartitionInfo(0, 0, 1), PartitionInfo(1, 3, 9)]];
    assert NonEmptyCount(b["a"]) == 2 by {
      assert b["a"][1..] == [PartitionInfo(1, 3, 9)];
    }
  }

  /** The three derived lists `list_empty_*_topics` pass on. */
  datatype Which = ConsumedOnly | ProducedOnly | ConsumedAndProduced

  function Chosen(l: TopicLists, w: Which): seq<Topic> {
    match w
    case ConsumedOnly => l.consumedOnly
    case ProducedOnly => l.producedOnly
    case ConsumedAndProduced => l.consumedAndProduced
  }

  function WithChosen(l: TopicLists, w: Which, v: seq<Topic>): TopicLists {
    match w
    case ConsumedOnly => l.(consumedOnly := v)
    case ProducedOnly => l.(producedOnly := v)
    case ConsumedAndProduced => l.(consumedAndProduced := v)
  }

  /**
   * `list_empty_consumed_only_topics` and its two siblings: the result is the helper's own
   * list, so the helper afterwards holds the shrunk list in that attribute and nothing else changes.
   */
  function ListEmptyOf(h: Helper, b: Catalog, w: Which): (r: Result<(Helper, seq<Topic>), RemoveError>)
    requires Knows(b, Chosen(h.lists, w)) && Distinct(Chosen(h.lists, w))
    ensures r.Success? ==> Chosen(r.value.0.lists, w) == r.value.1
    ensures r.Success? ==> r.value.0 == h.(lists := WithChosen(h.lists, w, r.value.1))
    ensures r.Success? ==> IsSubsequence(r.value.1, Chosen(h.lists, w))
    ensures (forall t :: t in Chosen(h.lists, w) ==> t in b && NonEmptyCount(b[t]) <= 1) ==> r.Success?
    ensures r.Failure? ==> r.error.topic in Chosen(h.lists, w) && r.error.topic in b && NonEmptyCount(b[r.error.topic]) >= 2
    ensures r.Success? ==> forall t :: t in Chosen(h.lists, w) && t in b && NonEmptyCount(b[t]) == 0 ==> t in r.value.1
  {
    var xs := Chosen(h.lists, w);
    match ListEmptyTopics(b, xs)
    case Failure(e) => Failure(e)
    case Success(v) =>
      var h' := h.(lists := WithChosen(h.lists, w, v));
      Success((h', v))
  }
  /**
   * A `list_empty_*` call can be repeated on the helper it leaves behind, which now holds the
   * shrunk list, and seeking and polling still work on that helper.
   */
  lemma ListEmptyOfRepeats(h: Helper, b: Catalog, w: Which)
    requires Knows(b, Chosen(h.lists, w)) && Distinct(Chosen(h.lists, w))
    ensures var r := ListEmptyOf(h, b, w);
            r.Success? ==> Knows(b, Chosen(r.value.0.lists, w)) && Distinct(Chosen(r.value.0.lists, w))
    ensures var r := ListEmptyOf(h, b, w);
            r.Success? && Pollable(h, b) ==> Pollable(r.value.0, b)
  {
    var r := ListEmptyOf(h, b, w);
    if r.Success? {
      var xs, v := Chosen(h.lists, w), r.value.1;
      SubsequenceElems(v, xs);
      SubsequenceDistinct(v, xs);
      assert Knows(b, v) by {
        forall t | t in v ensures t in b {
          assert t in Elems(v);
          assert t in Elems(xs);
        }
      }
    }
  }

  /** A ready helper can empty-check any of its derived lists. */
  lemma ReadyListEmptyOf(h: Helper, b: Catalog, w: Which)
    requires Ready(h, b)
    ensures Knows(b, Chosen(h.lists, w)) && Distinct(Chosen(h.lists, w)) && Pollable(h, b)
  {
    var xs := Chosen(h.lists, w);
    assert Elems(xs) <= Elems(h.lists.topicList);
    assert Knows(b, xs) by {
      forall t | t in xs ensures t in b {
        assert t in Elems(xs);
      }
    }
  }

  /**
   * With consumed-only topics a and b, each with one partition holding data, the first call
   * skips b and leaves ["b"]; the second call, on the shrunk list, removes b and leaves [].
   */
  lemma ShrunkListRepeats(h: Helper, b: Catalog)
    requires b == map["a" := [PartitionInfo(0, 0, 1)], "b" := [PartitionInfo(0, 0, 1)]]
    requires h.lists.consumedOnly == ["a", "b"]
    ensures ListEmptyOf(h, b, ConsumedOnly).Success?
    ensures var h1 := ListEmptyOf(h, b, ConsumedOnly).value.0;
            && ListEmptyOf(h, b, ConsumedOnly).value.1 == ["b"]
            && h1.lists.consumedOnly == ["b"]
            && ListEmptyOf(h1, b, ConsumedOnly) == Success((h1.(lists := h1.lists.(consumedOnly := [])), []))
  {
    assert Distinct(["a", "b"]) by {
      assert ["a", "b"][0] != ["a", "b"][1];
    }
    AdjacentTopicSkipped();
    ListEmptyOfRepeats(h, b, ConsumedOnly);
    var h1 := ListEmptyOf(h, b, ConsumedOnly).value.0;
    assert NonEmptyCount(b["b"]) == 1;
    assert ["b"][1..] == [];
    assert SkipRef(b, ["b"]) == Success([]);
  }


  // ---------------------------------------------------------------------------------------------
  // Last-read offsets
  // ---------------------------------------------------------------------------------------------

  /** No two partitions of the list share a number (`partitions_for_topic` returns a set). */
  predicate UniquePartitions(parts: seq<PartitionInfo>) {
    forall i, j :: 0 <= i < j < |parts| ==> parts[i].partition != parts[j].partition
  }

  /** The two branches of `create_topic_partitions_last_read_offset_dict`. */
  function ReadStart(begin: int): int {
    if begin != 0 then begin - 1 else -1
  }

  /** The starting last-read offsets of one topic. */
  function StartOffsets(t: Topic, parts: seq<PartitionInfo>): (r: map<TopicPartition, int>)
    ensures forall p :: p in parts ==> TopicPartition(t, p.partition) in r
    ensures forall tp :: tp in r ==> tp.topic == t
    decreases |parts|
  {
    if parts == [] then map[]
    else
      var n := |parts| - 1;
      assert forall p :: p in parts ==> p in parts[..n] || p == parts[n] by {
        assert parts == parts[..n] + [parts[n]];
      }
      StartOffsets(t, parts[..n])[TopicPartition(t, parts[n].partition) := ReadStart(parts[n].begin)]
  }

  /** Every partition starts at begin - 1: the `begin != 0` branch and the `begin == 0` branch agree. */
  lemma {:induction false} StartOffsetsValue(t: Topic, parts: seq<PartitionInfo>, p: PartitionInfo)
    requires UniquePartitions(parts) && p in parts
    ensures StartOffsets(t, parts)[TopicPartition(t, p.partition)] == p.begin - 1
    decreases |parts|
  {
    var n := |parts| - 1;
    if p != parts[n] {
      var i :| 0 <= i < |parts| && parts[i] == p;
      assert i < n;
      assert parts[..n][i] == p;
      assert UniquePartitions(parts[..n]);
      StartOffsetsValue(t, parts[..n], p);
    }
  }

  /** `create_topic_partitions_last_read_offset_dict` over the listed topics, flattened to one map keyed by topic partition. */
  function InitialLastRead(b: Catalog, topics: seq<Topic>): (r: map<TopicPartition, int>)
    requires Knows(b, topics)
    ensures forall t, p :: t in topics && p in b[t] ==> TopicPartition(t, p.partition) in r
    ensures forall tp :: tp in r ==> tp.topic in topics
    decreases |topics|
  {
    if topics == [] then map[]
    else
      var n := |topics| - 1;
      assert forall t :: t in topics <==> t in topics[..n] || t == topics[n] by {
        assert topics == topics[..n] + [topics[n]];
      }
      InitialLastRead(b, topics[..n]) + StartOffsets(topics[n], b[topics[n]])
  }

  /** Every key of a topic's starting map is one of the topic's listed partitions. */
  lemma {:induction false} StartOffsetsKeys(t: Topic, parts: seq<PartitionInfo>, tp: TopicPartition)
    requires tp in StartOffsets(t, parts)
    ensures exists p :: p in parts && p.partition == tp.partition
    decreases |parts|
  {
    var n := |parts| - 1;
    if tp != TopicPartition(t, parts[n].partition) {
      StartOffsetsKeys(t, parts[..n], tp);
      var p :| p in parts[..n] && p.partition == tp.partition;
      assert p in parts by {
        assert parts == parts[..n] + [parts[n]];
      }
    }
  }

  /** Every key of the starting last-read map is a listed partition of a listed topic. */
  lemma {:induction false} InitialLastReadKeys(b: Catalog, topics: seq<Topic>, tp: TopicPartition)
    requires Knows(b, topics) && tp in InitialLastRead(b, topics)
    ensures tp.topic in topics && exists p :: p in b[tp.topic] && p.partition == tp.partition
    decreases |topics|
  {
    var n := |topics| - 1;
    assert topics == topics[..n] + [topics[n]];
    if tp in StartOffsets(topics[n], b[topics[n]]) {
      StartOffsetsKeys(topics[n], b[topics[n]], tp);
    } else {
      InitialLastReadKeys(b, topics[..n], tp);
    }
  }

  /** The starting last-read offset of every listed partition is its begin offset minus one. */
  lemma {:induction false} InitialLastReadValue(b: Catalog, topics: seq<Topic>, t: Topic, p: PartitionInfo)
    requires Knows(b, topics) && t in topics && p in b[t] && UniquePartitions(b[t])
    ensures InitialLastRead(b, topics)[TopicPartition(t, p.partition)] == p.begin - 1
    decreases |topics|
  {
    var n := |topics| - 1;
    var last := topics[n];
    assert topics == topics[..n] + [last];
    if t == last {
      StartOffsetsValue(t, b[t], p);
    } else {
      assert t in topics[..n];
      InitialLastReadValue(b, topics[..n], t, p);
    }
  }

  /** The last-read offset of every partition of every listed topic is known. */
  predicate Covers(b: Catalog, topics: seq<Topic>, lastRead: map<TopicPartition, int>)
    requires Knows(b, topics)
  {
    forall t, p :: t in topics && p in b[t] ==> TopicPartition(t, p.partition) in lastRead
  }

  /** Every partition of every listed topic has been read up to its last record, end - 1. */
  predicate Caught(b: Catalog, topics: seq<Topic>, lastRead: map<TopicPartition, int>)
    requires Knows(b, topics) && Covers(b, topics, lastRead)
  {
    forall t, p :: t in topics && p in b[t] ==> lastRead[TopicPartition(t, p.partition)] >= p.end - 1
  }

  /** The comprehension building `topic_partitions_not_reached_last_offset`, for one topic. */
  function NotReachedIn(t: Topic, parts: seq<PartitionInfo>, lastRead: map<TopicPartition, int>): (r: seq<TopicPartition>)
    requires forall p :: p in parts ==> TopicPartition(t, p.partition) in lastRead
    ensures r == [] <==> forall p :: p in parts ==> lastRead[TopicPartition(t, p.partition)] >= p.end - 1
    ensures forall tp :: tp in r ==> tp.topic == t && exists p :: p in parts && p.partition == tp.partition && lastRead[tp] < p.end - 1
    decreases |parts|
  {
    if parts == [] then []
    else
      assert parts == [parts[0]] + parts[1..];
      var tp := TopicPartition(t, parts[0].partition);
      var rest := NotReachedIn(t, parts[1..], lastRead);
      if lastRead[tp] < parts[0].end - 1 then [tp] + rest else rest
  }

  /** The same comprehension over all listed topics. */
  function NotReached(b: Catalog, topics: seq<Topic>, lastRead: map<TopicPartition, int>): (r: seq<TopicPartition>)
    requires Knows(b, topics) && Covers(b, topics, lastRead)
    ensures r == [] <==> Caught(b, topics, lastRead)
    ensures forall tp :: tp in r ==> tp.topic in topics && exists p :: p in b[tp.topic] && p.partition == tp.partition && lastRead[tp] < p.end - 1
    decreases |topics|
  {
    if topics == [] then []
    else
      var t := topics[0];
      assert topics == [t] + topics[1..];
      NotReachedIn(t, b[t], lastRead) + NotReached(b, topics[1..], lastRead)
  }

  /** `len(topic_partitions_not_reached_last_offset) == 0`: the polling loop's exit test. */
  function Finished(b: Catalog, consumed: seq<Topic>, lastRead: map<TopicPartition, int>): (r: bool)
    requires Knows(b, consumed) && Covers(b, consumed, lastRead)
    ensures r <==> Caught(b, consumed, lastRead)
    ensures consumed == [] ==> r
  {
    |NotReached(b, consumed, lastRead)| == 0
  }

  /**
   * Before anything is read, a partition counts as read to its end exactly when it holds no
   * message (begin >= end): begin - 1 >= end - 1.
   */
  lemma EmptyPartitionDoneAtStart(b: Catalog, topics: seq<Topic>, t: Topic, p: PartitionInfo)
    requires Knows(b, topics) && t in topics && p in b[t] && UniquePartitions(b[t])
    ensures TopicPartition(t, p.partition) in InitialLastRead(b, topics)
    ensures InitialLastRead(b, topics)[TopicPartition(t, p.partition)] >= p.end - 1 <==> !HasData(p)
  {
    InitialLastReadValue(b, topics, t, p);
  }

  /** The starting last-read map covers every consumed topic, the consumed topics being among the listed ones. */
  lemma InitialLastReadCovers(b: Catalog, topics: seq<Topic>, consumed: seq<Topic>)
    requires Knows(b, topics) && Elems(consumed) <= Elems(topics)
    ensures Knows(b, consumed) && Covers(b, consumed, InitialLastRead(b, topics))
  {
    forall t | t in consumed ensures t in topics {
      assert t in Elems(consumed);
    }
  }

  /** The exit test holds before any read exactly when no partition of a consumed topic holds a message. */
  lemma FinishedAtStart(b: Catalog, topics: seq<Topic>, consumed: seq<Topic>)
    requires Knows(b, topics) && Elems(consumed) <= Elems(topics)
    requires forall t :: t in topics ==> UniquePartitions(b[t])
    ensures Knows(b, consumed) && Covers(b, consumed, InitialLastRead(b, topics))
    ensures Finished(b, consumed, InitialLastRead(b, topics)) <==> forall t, p :: t in consumed && p in b[t] ==> !HasData(p)
  {
    InitialLastReadCovers(b, topics, consumed);
    var start := InitialLastRead(b, topics);
    forall t, p | t in consumed && p in b[t]
      ensures start[TopicPartition(t, p.partition)] >= p.end - 1 <==> !HasData(p)
    {
      assert t in Elems(consumed);
      InitialLastReadValue(b, topics, t, p);
    }
  }

  // ---------------------------------------------------------------------------------------------
  // Polling
  // ---------------------------------------------------------------------------------------------

  function PartitionOf(r: Record): TopicPartition {
    TopicPartition(r.topic, r.partition)
  }

  /** The partitions the records come from. */
  function PartitionsOf(rs: seq<Record>): set<TopicPartition> {
    set i | 0 <= i < |rs| :: PartitionOf(rs[i])
  }

  /**
   * The last-read bookkeeping of the polling loop over records in the order they are handled
   * (poll after poll, each poll's records in turn): every record sets its partition's entry to
   * its own offset, whatever its timestamp. The value bookkeeping of the same loop is the
   * reducer of module Latest; the two share no state.
   */
  function ReadOffsets(lastRead: map<TopicPartition, int>, rs: seq<Record>): (r: map<TopicPartition, int>)
    ensures r.Keys == lastRead.Keys + PartitionsOf(rs)
    decreases |rs|
  {
    if rs == [] then lastRead
    else
      var n := |rs| - 1;
      assert PartitionsOf(rs) == PartitionsOf(rs[..n]) + {PartitionOf(rs[n])} by {
        assert forall i :: 0 <= i < n ==> rs[..n][i] == rs[i];
      }
      ReadOffsets(lastRead, rs[..n])[PartitionOf(rs[n]) := rs[n].offset]
  }

  /** Record `i` is the last of the list in its partition. */
  predicate LastInPartition(rs: seq<Record>, i: int)
    requires 0 <= i < |rs|
  {
    forall j :: i < j < |rs| ==> PartitionOf(rs[j]) != PartitionOf(rs[i])
  }

  /** After reading, a partition some record came from holds the offset of its last record. */
  lemma {:induction false} ReadOffsetsLastRecord(lastRead: map<TopicPartition, int>, rs: seq<Record>, i: int)
    requires 0 <= i < |rs| && LastInPartition(rs, i)
    ensures ReadOffsets(lastRead, rs)[PartitionOf(rs[i])] == rs[i].offset
    decreases |rs|
  {
    var n := |rs| - 1;
    if i < n {
      assert PartitionOf(rs[n]) != PartitionOf(rs[i]);
      LastInPartitionPrefix(rs, i);
      ReadOffsetsLastRecord(lastRead, rs[..n], i);
    }
  }

  lemma LastInPartitionPrefix(rs: seq<Record>, i: int)
    requires 0 <= i < |rs| - 1 && LastInPartition(rs, i)
    ensures LastInPartition(rs[..|rs| - 1], i)
  {
    var pre := rs[..|rs| - 1];
    forall j | i < j < |pre| ensures PartitionOf(pre[j]) != PartitionOf(pre[i]) {
      assert pre[j] == rs[j] && pre[i] == rs[i];
    }
  }

  /** A partition no record came from keeps its entry. */
  lemma {:induction false} ReadOffsetsUntouched(lastRead: map<TopicPartition, int>, rs: seq<Record>, tp: TopicPartition)
    requires tp in lastRead && tp !in PartitionsOf(rs)
    ensures ReadOffsets(lastRead, rs)[tp] == lastRead[tp]
    decreases |rs|
  {
    if rs != [] {
      var n := |rs| - 1;
      assert tp != PartitionOf(rs[n]);
      assert tp !in PartitionsOf(rs[..n]) by {
        forall i | 0 <= i < n ensures PartitionOf(rs[..n][i]) != tp {
          assert rs[..n][i] == rs[i];
          assert PartitionOf(rs[i]) in PartitionsOf(rs);
        }
      }
      ReadOffsetsUntouched(lastRead, rs[..n], tp);
    }
  }

  /** The records of the first `j + 1` polls, in the order they are handled. */
  function Polled(bs: seq<seq<Record>>, j: nat): seq<Record>
    requires j < |bs|
  {
    Flatten(bs[..j + 1])
  }

  /** The last-read offsets after the first `j + 1` polls, started from `lastRead`. */
  function LastReadAfter(b: Catalog, consumed: seq<Topic>, lastRead: map<TopicPartition, int>, bs: seq<seq<Record>>, j: nat): (r: map<TopicPartition, int>)
    requires Knows(b, consumed) && Covers(b, consumed, lastRead) && j < |bs|
    ensures Covers(b, consumed, r)
  {
    var r := ReadOffsets(lastRead, Polled(bs, j));
    CoversGrow(b, consumed, lastRead, r);
    r
  }

  /** Reading only adds partitions to the last-read map, so whatever it covered stays covered. */
  lemma CoversGrow(b: Catalog, topics: seq<Topic>, m: map<TopicPartition, int>, m': map<TopicPartition, int>)
    requires Knows(b, topics) && Covers(b, topics, m) && m.Keys <= m'.Keys
    ensures Covers(b, topics, m')
  {
    forall t, p | t in topics && p in b[t] ensures TopicPartition(t, p.partition) in m' {
      assert TopicPartition(t, p.partition) in m.Keys;
    }
  }

  /** The outcome of the exit test after each of the given polls. */
  function ExitTests(b: Catalog, consumed: seq<Topic>, lastRead: map<TopicPartition, int>, bs: seq<seq<Record>>): (f: seq<bool>)
    requires Knows(b, consumed) && Covers(b, consumed, lastRead)
    ensures |f| == |bs|
    ensures forall j :: 0 <= j < |bs| ==> (f[j] <==> Caught(b, consumed, LastReadAfter(b, consumed, lastRead, bs, j)))
  {
    seq(|bs|, j requires 0 <= j < |bs| => Finished(b, consumed, LastReadAfter(b, consumed, lastRead, bs, j)))
  }

  /** The last-read offsets the polling loop starts from: those of all the helper's topics. */
  function StartLastRead(h: Helper, b: Catalog): (m: map<TopicPartition, int>)
    requires Pollable(h, b)
    ensures Knows(b, h.consumed) && Covers(b, h.consumed, m)
  {
    assert forall t :: t in h.consumed ==> t in h.lists.topicList by {
      forall t | t in h.consumed ensures t in h.lists.topicList {
        assert t in Elems(h.consumed);
        assert t in Elems(h.lists.topicList);
      }
    }
    InitialLastRead(b, h.lists.topicList)
  }

  /**
   * The poll after which the loop of `get_latest_topic_messages_to_dict_poll_based` exits, if
   * any of the given ones: the first poll after which every partition of every consumed topic
   * has been read up to end - 1. The test runs after every poll, whether it returned records or not.
   */
  function StopPoll(h: Helper, b: Catalog, bs: seq<seq<Record>>): (r: Option<nat>)
    requires Pollable(h, b)
    ensures r.Some? ==> r.value < |bs| && Caught(b, h.consumed, LastReadAfter(b, h.consumed, StartLastRead(h, b), bs, r.value))
    ensures forall j :: 0 <= j < |bs| && (r.None? || j < r.value) ==>
              !Caught(b, h.consumed, LastReadAfter(b, h.consumed, StartLastRead(h, b), bs, j))
  {
    FirstTrue(ExitTests(b, h.consumed, StartLastRead(h, b), bs), 0)
  }

  /**
   * `get_latest_topic_messages_to_dict_poll_based` for the polls the broker answers with. The
   * seek to the latest records comes first, and its failure ends the program. Otherwise the value
   * dictionary as it stands after the poll the loop exits on, or `None` when the given polls never
   * satisfy the exit test. Per consumed topic the value is `None` when none of the records read
   * has a timestamp above 0, and otherwise the value of the first record read with the maximum
   * timestamp.
   */
  function GetLatestTopicMessages(h: Helper, b: Catalog, bs: seq<seq<Record>>): (r: Result<Option<map<Topic, Option<Value>>>, SeekError>)
    requires Pollable(h, b) && Latest.BatchesFrom(bs, Latest.Initial(h.consumed))
    ensures Knows(b, h.consumed)
    ensures r.Failure? <==> SeekLatest(b, h.consumed).Failure?
    ensures r.Success? ==> (r.value.Some? <==> StopPoll(h, b, bs).Some?)
    ensures r.Success? && r.value.Some? ==> forall t :: t in r.value.value <==> t in h.consumed
    ensures r.Success? && r.value.Some? ==>
      var rs := Polled(bs, StopPoll(h, b, bs).value);
      && (forall t :: t in r.value.value ==> (r.value.value[t].None? <==> Latest.NoneNewer(rs, t, 0)))
      && (forall t :: t in r.value.value && r.value.value[t].Some? ==>
            exists i :: Latest.FirstMaximum(rs, t, i) && rs[i].timestamp > 0 && r.value.value[t] == Some(rs[i].value))
  {
    KnowsConsumed(b, h.consumed, h.produced);
    match SeekLatest(b, h.consumed)
    case Failure(e) => Failure(e)
    case Success(_) =>
      match StopPoll(h, b, bs)
      case None => Success(None)
      case Some(k) => Success(Some(ValuesAfter(h.consumed, bs, k)))
  }

  /** The value dictionary after the first `k + 1` polls. */
  function ValuesAfter(consumed: seq<Topic>, bs: seq<seq<Record>>, k: nat): (m: map<Topic, Option<Value>>)
    requires k < |bs| && Latest.BatchesFrom(bs, Latest.Initial(consumed))
    ensures forall t :: t in m <==> t in consumed
    ensures var rs := Polled(bs, k);
      && (forall t :: t in m ==> (m[t].None? <==> Latest.NoneNewer(rs, t, 0)))
      && (forall t :: t in m && m[t].Some? ==>
            exists i :: Latest.FirstMaximum(rs, t, i) && rs[i].timestamp > 0 && m[t] == Some(rs[i].value))
  {
    Latest.BatchesPrefix(bs, Latest.Initial(consumed), k + 1);
    Latest.LatestValues(consumed, bs[..k + 1])
  }
}
