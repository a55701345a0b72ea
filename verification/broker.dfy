/**
 * What both Kafka helper classes share once the broker is replaced by the answers it gives:
 * topics, partitions with their begin and end offsets, consumer records, the topic lists
 * derived from the configured consumed and produced lists, the topic-existence check, and
 * the choice of offsets for "seek to the latest available message".
 */
module Broker {
  import opened Base

  type Topic = string

  /** A record key and a record value after JSON decoding; the model never looks inside them. */
  type Key = string
  type Value = string

  datatype TopicPartition = TopicPartition(topic: Topic, partition: nat)

  /** One partition as the broker reports it: its number, its begin offset and its end offset (one past the last record). */
  datatype PartitionInfo = PartitionInfo(partition: nat, begin: int, end: int)

  /** The broker's partition listing: for each topic in its catalog, the partitions in the order `partitions_for_topic` yields them. */
  type Catalog = map<Topic, seq<PartitionInfo>>

  /** A consumer record: the fields the helpers read. */
  datatype Record = Record(topic: Topic, partition: nat, offset: int, timestamp: int, key: Key, value: Value)

  /** Every listed topic is in the catalog. */
  predicate Knows(b: Catalog, topics: seq<Topic>) {
    forall t :: t in topics ==> t in b
  }

  // ---------------------------------------------------------------------------------------------
  // Derived topic lists
  // ---------------------------------------------------------------------------------------------

  /** The topic lists computed once from the configured consumed and produced lists. */
  datatype TopicLists = TopicLists(
    topicList: seq<Topic>,
    consumedOnly: seq<Topic>,
    producedOnly: seq<Topic>,
    consumedAndProduced: seq<Topic>)

  /** The elements of `xs` that do not occur in `ys`, in order. */
  function Minus(xs: seq<Topic>, ys: seq<Topic>): (r: seq<Topic>)
    ensures Elems(r) == Elems(xs) - Elems(ys)
    decreases |xs|
  {
    if xs == [] then []
    else
      var rest := Minus(xs[1..], ys);
      assert xs == [xs[0]] + xs[1..];
      ElemsAppend([xs[0]], xs[1..]);
      if xs[0] in ys then rest
      else
        ElemsAppend([xs[0]], rest);
        [xs[0]] + rest
  }

  /** The elements of `xs` that also occur in `ys`, in order. */
  function Meet(xs: seq<Topic>, ys: seq<Topic>): (r: seq<Topic>)
    ensures Elems(r) == Elems(xs) * Elems(ys)
    decreases |xs|
  {
    if xs == [] then []
    else
      var rest := Meet(xs[1..], ys);
      assert xs == [xs[0]] + xs[1..];
      ElemsAppend([xs[0]], xs[1..]);
      if xs[0] in ys then
        ElemsAppend([xs[0]], rest);
        [xs[0]] + rest
      else rest
  }

  /**
   * `list(set(P + C))`, `list(set(C) - set(P))`, `list(set(P) - set(C))` and
   * `list(set(C).intersection(P))`. Python lists a set in hash order; the model lists it in
   * first-occurrence order, which is one of the orders Python may produce.
   */
  function DeriveTopicLists(consumed: seq<Topic>, produced: seq<Topic>): (d: TopicLists)
    ensures Elems(d.topicList) == Elems(consumed) + Elems(produced)
    ensures Elems(d.consumedOnly) == Elems(consumed) - Elems(produced)
    ensures Elems(d.producedOnly) == Elems(produced) - Elems(consumed)
    ensures Elems(d.consumedAndProduced) == Elems(consumed) * Elems(produced)
    ensures Distinct(d.topicList) && Distinct(d.consumedOnly)
    ensures Distinct(d.producedOnly) && Distinct(d.consumedAndProduced)
    ensures Elems(d.consumedOnly) !! Elems(d.producedOnly)
    ensures Elems(d.consumedOnly) !! Elems(d.consumedAndProduced)
    ensures Elems(d.producedOnly) !! Elems(d.consumedAndProduced)
    ensures Elems(d.consumedOnly) + Elems(d.producedOnly) + Elems(d.consumedAndProduced) == Elems(d.topicList)
  {
    ElemsAppend(produced, consumed);
    TopicLists(
      Dedupe(produced + consumed),
      Dedupe(Minus(consumed, produced)),
      Dedupe(Minus(produced, consumed)),
      Dedupe(Meet(consumed, produced)))
  }

  /** A catalog that knows the whole topic list knows the consumed topics. */
  lemma KnowsConsumed(b: Catalog, consumed: seq<Topic>, produced: seq<Topic>)
    requires Knows(b, DeriveTopicLists(consumed, produced).topicList)
    ensures Knows(b, consumed)
  {
    forall t | t in consumed ensures t in b {
      assert t in Elems(consumed);
    }
  }

  // ---------------------------------------------------------------------------------------------
  // Topic existence
  // ---------------------------------------------------------------------------------------------

  /** The listed topics the broker's catalog lacks, in list order. */
  function MissingTopics(topics: seq<Topic>, b: Catalog): (r: seq<Topic>)
    ensures forall t :: t in r <==> t in topics && t !in b
    decreases |topics|
  {
    if topics == [] then []
    else
      var rest := MissingTopics(topics[1..], b);
      assert topics == [topics[0]] + topics[1..];
      if topics[0] in b then rest else [topics[0]] + rest
  }

  /** `verify_topic_existence`: fails, naming the unavailable topics, unless every topic is in the catalog. */
  function VerifyTopicExistence(topics: seq<Topic>, b: Catalog): (r: Result<(), seq<Topic>>)
    ensures r.Success? <==> Knows(b, topics)
    ensures r.Failure? ==> r.error != [] && forall t :: t in r.error <==> t in topics && t !in b
  {
    var missing := MissingTopics(topics, b);
    if missing == [] then Success(())
    else
      assert missing[0] in missing;
      Failure(missing)
  }

  // ---------------------------------------------------------------------------------------------
  // Empty partitions
  // ---------------------------------------------------------------------------------------------

  /** The test both helpers apply to decide a partition holds messages: end offset strictly above begin offset. */
  predicate HasData(p: PartitionInfo) {
    p.end > p.begin
  }

  /** How many partitions of the list hold messages: the number of `remove` calls a topic triggers. */
  function NonEmptyCount(parts: seq<PartitionInfo>): (n: nat)
    ensures n <= |parts|
    ensures n == 0 <==> forall p :: p in parts ==> !HasData(p)
    decreases |parts|
  {
    if parts == [] then 0
    else
      assert parts == [parts[0]] + parts[1..];
      (if HasData(parts[0]) then 1 else 0) + NonEmptyCount(parts[1..])
  }

  /** The per-topic inner loop of `list_empty_topics`: one `remove(topic)` on the list for every partition holding messages. */
  function RemoveForPartitions(xs: seq<Topic>, topic: Topic, parts: seq<PartitionInfo>): Option<seq<Topic>>
    decreases |parts|
  {
    if parts == [] then Some(xs)
    else if HasData(parts[0]) then
      match RemoveFirst(xs, topic)
      case None => None
      case Some(ys) => RemoveForPartitions(ys, topic, parts[1..])
    else
      RemoveForPartitions(xs, topic, parts[1..])
  }

  /** When the inner loop succeeds it has taken out one copy of the topic per partition holding messages, and nothing else. */
  lemma {:induction false} RemoveForPartitionsCounts(xs: seq<Topic>, topic: Topic, parts: seq<PartitionInfo>)
    ensures RemoveForPartitions(xs, topic, parts).Some? ==>
              && multiset(RemoveForPartitions(xs, topic, parts).value) + multiset(seq(NonEmptyCount(parts), _ => topic)) == multiset(xs)
              && |RemoveForPartitions(xs, topic, parts).value| + NonEmptyCount(parts) == |xs|
    decreases |parts|
  {
    if parts == [] {
      assert seq(0, _ => topic) == [];
    } else if HasData(parts[0]) {
      RemoveFirstCounts(xs, topic);
      if RemoveFirst(xs, topic).Some? {
        var ys := RemoveFirst(xs, topic).value;
        RemoveForPartitionsCounts(ys, topic, parts[1..]);
        assert seq(NonEmptyCount(parts), _ => topic) == [topic] + seq(NonEmptyCount(parts[1..]), _ => topic);
      }
    } else {
      RemoveForPartitionsCounts(xs, topic, parts[1..]);
    }
  }

  /**
   * How the inner loop acts on a list holding the topic exactly once, at position |pre|:
   * nothing is removed when no partition holds messages, the position is removed when one does,
   * and the second `remove` fails when two or more do.
   */
  lemma {:induction false} RemoveForPartitionsOnce(pre: seq<Topic>, topic: Topic, post: seq<Topic>, parts: seq<PartitionInfo>)
    requires topic !in pre && topic !in post
    ensures NonEmptyCount(parts) == 0 ==> RemoveForPartitions(pre + [topic] + post, topic, parts) == Some(pre + [topic] + post)
    ensures NonEmptyCount(parts) == 1 ==> RemoveForPartitions(pre + [topic] + post, topic, parts) == Some(pre + post)
    ensures NonEmptyCount(parts) >= 2 ==> RemoveForPartitions(pre + [topic] + post, topic, parts) == None
    decreases |parts|
  {
    if parts != [] {
      RemoveForPartitionsOnce(pre, topic, post, parts[1..]);
      if HasData(parts[0]) {
        RemoveFirstAt(pre, topic, post);
        RemoveForPartitionsAbsent(pre + post, topic, parts[1..]);
      }
    }
  }

  /** With the topic absent, the inner loop succeeds only if no partition holds messages, and then changes nothing. */
  lemma {:induction false} RemoveForPartitionsAbsent(xs: seq<Topic>, topic: Topic, parts: seq<PartitionInfo>)
    requires topic !in xs
    ensures NonEmptyCount(parts) == 0 ==> RemoveForPartitions(xs, topic, parts) == Some(xs)
    ensures NonEmptyCount(parts) > 0 ==> RemoveForPartitions(xs, topic, parts) == None
    decreases |parts|
  {
    if parts != [] {
      RemoveForPartitionsAbsent(xs, topic, parts[1..]);
    }
  }

  /** The ValueError `list.remove` raises when a topic has already been removed. */
  datatype RemoveError = TopicNotInList(topic: Topic)

  /** Some listed topic has two or more partitions holding messages (its second `remove` fails). */
  predicate HasBusyTopic(b: Catalog, topics: seq<Topic>)
    requires Knows(b, topics)
  {
    exists t :: t in topics && NonEmptyCount(b[t]) >= 2
  }

  /** The listed topics none of whose partitions holds messages, in list order. */
  function EmptyTopicsIn(b: Catalog, topics: seq<Topic>): (r: seq<Topic>)
    requires Knows(b, topics)
    ensures IsSubsequence(r, topics)
    ensures forall t :: t in r <==> t in topics && forall p :: p in b[t] ==> !HasData(p)
    decreases |topics|
  {
    if topics == [] then []
    else
      assert topics == [topics[0]] + topics[1..];
      var rest := EmptyTopicsIn(b, topics[1..]);
      if NonEmptyCount(b[topics[0]]) == 0 then [topics[0]] + rest else rest
  }

  // ---------------------------------------------------------------------------------------------
  // Seek to latest
  // ---------------------------------------------------------------------------------------------

  /** One `consumer.seek(partition, offset)` call. */
  datatype Seek = Seek(target: TopicPartition, offset: int)

  /** The IndexError `topic_partitions_dict[topic][topic_partition.partition]` raises when a partition number exceeds the list. */
  datatype SeekError = PartitionIndexOutOfRange(topic: Topic, partition: nat)

  /**
   * The seeks of one topic, from position `i` of its partition list on: a partition whose end
   * offset is positive is sought to end - 1; the partition handed to `seek` is the list entry
   * indexed by the partition's number.
   */
  function SeekPartitions(t: Topic, parts: seq<PartitionInfo>, i: nat): Result<seq<Seek>, SeekError>
    decreases |parts| - i
  {
    if i >= |parts| then Success([])
    else
      var p := parts[i];
      var rest := SeekPartitions(t, parts, i + 1);
      if p.end > 0 then
        if p.partition < |parts| then
          match rest
          case Failure(e) => Failure(e)
          case Success(seeks) => Success([Seek(TopicPartition(t, parts[p.partition].partition), p.end - 1)] + seeks)
        else
          Failure(PartitionIndexOutOfRange(t, p.partition))
      else
        rest
  }

  /**
   * The seek loop of one topic fails exactly when some partition with end > 0 carries a number
   * past the end of the list; otherwise every seek is for the topic and to a non-negative offset.
   */
  lemma {:induction false} SeekPartitionsOutcome(t: Topic, parts: seq<PartitionInfo>, i: nat)
    ensures SeekPartitions(t, parts, i).Failure? <==>
              exists j :: i <= j < |parts| && parts[j].end > 0 && parts[j].partition >= |parts|
    ensures SeekPartitions(t, parts, i).Success? ==>
              forall s :: s in SeekPartitions(t, parts, i).value ==> s.target.topic == t && s.offset >= 0
    decreases |parts| - i
  {
    if i < |parts| {
      SeekPartitionsOutcome(t, parts, i + 1);
      if SeekPartitions(t, parts, i).Failure? && !SeekPartitions(t, parts, i + 1).Failure? {
        assert parts[i].end > 0 && parts[i].partition >= |parts|;
      }
    }
  }

  /** `seek_topic_partitions_latest` over the consumed topics, in list order. */
  function SeekLatest(b: Catalog, consumed: seq<Topic>): (r: Result<seq<Seek>, SeekError>)
    requires Knows(b, consumed)
    ensures r.Failure? <==> exists t, j :: t in consumed && 0 <= j < |b[t]| && b[t][j].end > 0 && b[t][j].partition >= |b[t]|
    decreases |consumed|
  {
    if consumed == [] then Success([])
    else
      var t := consumed[0];
      assert consumed == [t] + consumed[1..];
      SeekPartitionsOutcome(t, b[t], 0);
      match SeekPartitions(t, b[t], 0)
      case Failure(e) => Failure(e)
      case Success(here) =>
        match SeekLatest(b, consumed[1..])
        case Failure(e) => Failure(e)
        case Success(later) => Success(here + later)
  }

  /** Partition numbers are 0, 1, 2, ... in list order, as `partitions_for_topic` reports them for a Kafka topic. */
  predicate Canonical(parts: seq<PartitionInfo>) {
    forall i :: 0 <= i < |parts| ==> parts[i].partition == i
  }

  /** The intended seeks, independent of list indexing: every partition with end > 0, sought to end - 1. */
  function LatestTargets(t: Topic, parts: seq<PartitionInfo>): seq<Seek>
    decreases |parts|
  {
    if parts == [] then []
    else
      var rest := LatestTargets(t, parts[1..]);
      if parts[0].end > 0 then [Seek(TopicPartition(t, parts[0].partition), parts[0].end - 1)] + rest else rest
  }

  /** The intended seeks are one per partition with end > 0, to end - 1, and nothing else. */
  lemma {:induction false} LatestTargetsContents(t: Topic, parts: seq<PartitionInfo>)
    ensures forall p :: p in parts && p.end > 0 ==> Seek(TopicPartition(t, p.partition), p.end - 1) in LatestTargets(t, parts)
    ensures forall s :: s in LatestTargets(t, parts) ==>
              exists p :: p in parts && p.end > 0 && s == Seek(TopicPartition(t, p.partition), p.end - 1)
    decreases |parts|
  {
    if parts != [] {
      assert parts == [parts[0]] + parts[1..];
      LatestTargetsContents(t, parts[1..]);
    }
  }

  /** On a canonical partition list, the indexed lookup hands every partition its own seek. */
  lemma {:induction false} SeekPartitionsCanonical(t: Topic, parts: seq<PartitionInfo>, i: nat)
    requires Canonical(parts) && i <= |parts|
    ensures SeekPartitions(t, parts, i) == Success(LatestTargets(t, parts[i..]))
    decreases |parts| - i
  {
    if i < |parts| {
      SeekPartitionsCanonical(t, parts, i + 1);
      assert parts[i..] == [parts[i]] + parts[i + 1..];
    }
  }

  /** Every consumed topic's partition list is canonical. */
  predicate AllCanonical(b: Catalog, consumed: seq<Topic>)
    requires Knows(b, consumed)
  {
    forall t :: t in consumed ==> Canonical(b[t])
  }

  /** The seeks issued are exactly one per partition with end > 0, each to end - 1. */
  predicate SeeksExactlyLatest(b: Catalog, consumed: seq<Topic>, seeks: seq<Seek>)
    requires Knows(b, consumed)
  {
    && (forall t, p :: t in consumed && p in b[t] && p.end > 0 ==> Seek(TopicPartition(t, p.partition), p.end - 1) in seeks)
    && (forall s :: s in seeks ==>
          s.target.topic in consumed &&
          exists p :: p in b[s.target.topic] && p.end > 0 && p.partition == s.target.partition && s.offset == p.end - 1)
  }

  /** The intended seeks of all consumed topics, topic after topic. */
  function AllTargets(b: Catalog, consumed: seq<Topic>): (r: seq<Seek>)
    requires Knows(b, consumed)
    ensures SeeksExactlyLatest(b, consumed, r)
    decreases |consumed|
  {
    if consumed == [] then []
    else
      var t := consumed[0];
      assert consumed == [t] + consumed[1..];
      LatestTargetsContents(t, b[t]);
      var r := LatestTargets(t, b[t]) + AllTargets(b, consumed[1..]);
      assert forall s :: s in r ==> s in LatestTargets(t, b[t]) || s in AllTargets(b, consumed[1..]);
      r
  }

  /** On canonical partition lists the seek loop succeeds and seeks exactly the partitions with end > 0 to end - 1. */
  lemma {:induction false} SeekLatestCanonical(b: Catalog, consumed: seq<Topic>)
    requires Knows(b, consumed) && AllCanonical(b, consumed)
    ensures SeekLatest(b, consumed) == Success(AllTargets(b, consumed))
    decreases |consumed|
  {
    if consumed != [] {
      var t := consumed[0];
      assert consumed == [t] + consumed[1..];
      SeekPartitionsCanonical(t, b[t], 0);
      assert b[t][0..] == b[t];
      SeekLatestCanonical(b, consumed[1..]);
    }
  }

  /**
   * On a partition list numbered in list order, the seek loop never seeks a partition whose end
   * offset is 0, whatever its begin offset.
   */
  lemma NoSeekWithoutEnd(t: Topic, parts: seq<PartitionInfo>, q: PartitionInfo)
    requires Canonical(parts) && q in parts && q.end == 0
    ensures SeekPartitions(t, parts, 0).Success?
    ensures forall s :: s in SeekPartitions(t, parts, 0).value ==> s.target.partition != q.partition
  {
    SeekPartitionsCanonical(t, parts, 0);
    assert parts[0..] == parts;
    LatestTargetsContents(t, parts);
  }

  /** The guard is end > 0, not end > begin: a partition whose records have all expired is still sought, to an offset below its begin. */
  lemma SeekGuardIgnoresBegin()
    ensures LatestTargets("t", [PartitionInfo(0, 5, 5)]) == [Seek(TopicPartition("t", 0), 4)]
    ensures SeekPartitions("t", [PartitionInfo(0, 5, 5)], 0) == Success([Seek(TopicPartition("t", 0), 4)])
  {
  }

  /** When partition numbers do not follow list positions, the indexed lookup seeks another partition of the topic. */
  lemma SeekFollowsListIndex()
    ensures SeekPartitions("t", [PartitionInfo(1, 0, 3), PartitionInfo(0, 0, 8)], 0)
         == Success([Seek(TopicPartition("t", 0), 2), Seek(TopicPartition("t", 1), 7)])
    ensures SeekPartitions("t", [PartitionInfo(2, 0, 3)], 0).Failure?
    ensures SeekPartitions("t", [PartitionInfo(1, 0, 0), PartitionInfo(0, 0, 8)], 0)
         == Success([Seek(TopicPartition("t", 1), 7)])
  {
    var empty := [PartitionInfo(1, 0, 0), PartitionInfo(0, 0, 8)];
    assert SeekPartitions("t", empty, 2) == Success([]);
    assert [Seek(TopicPartition("t", 1), 7)] + [] == [Seek(TopicPartition("t", 1), 7)];
    assert SeekPartitions("t", empty, 1) == Success([Seek(TopicPartition("t", 1), 7)]);
    var parts := [PartitionInfo(1, 0, 3), PartitionInfo(0, 0, 8)];
    var a, c := Seek(TopicPartition("t", 0), 2), Seek(TopicPartition("t", 1), 7);
    assert SeekPartitions("t", parts, 2) == Success([]);
    assert [c] + [] == [c];
    assert SeekPartitions("t", parts, 1) == Success([c]);
    assert [a] + [c] == [a, c];
  }
}
