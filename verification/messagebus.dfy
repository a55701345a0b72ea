/**
 * `MessageHandler` of singupy/messagebus.py with the broker replaced by its answers: the
 * catalog (partitions with begin and end offsets), the consumer's positions, and the batches
 * successive polls return.
 */
module MessageBus {
  import opened Base
  import opened Broker
  import Latest

  /** The configured lists and the lists derived from them. */
  datatype Handler = Handler(consumed: seq<Topic>, produced: seq<Topic>, lists: TopicLists)

  /** The handler's derived lists are the ones its configuration determines, and the broker knows all its topics. */
  predicate Ready(h: Handler, b: Catalog) {
    && h.lists == DeriveTopicLists(h.consumed, h.produced)
    && Knows(b, h.lists.topicList)
  }

  /**
   * `MessageHandler.__init__` without the connection set-up: derive the lists, then exit
   * (here: fail with the missing topics) unless every configured topic exists.
   */
  function NewHandler(consumed: seq<Topic>, produced: seq<Topic>, b: Catalog): (r: Result<Handler, seq<Topic>>)
    ensures r.Success? <==> Knows(b, consumed) && Knows(b, produced)
    ensures r.Failure? ==> forall t :: t in r.error <==> (t in consumed || t in produced) && t !in b
    ensures r.Success? ==> Ready(r.value, b)
    ensures r.Success? ==>
      var d := r.value.lists;
      && Elems(d.consumedOnly) == Elems(consumed) - Elems(produced)
      && Elems(d.producedOnly) == Elems(produced) - Elems(consumed)
      && Elems(d.consumedAndProduced) == Elems(consumed) * Elems(produced)
      && Elems(d.consumedOnly) !! Elems(d.producedOnly)
      && Elems(d.consumedOnly) !! Elems(d.consumedAndProduced)
      && Elems(d.producedOnly) !! Elems(d.consumedAndProduced)
      && Elems(d.consumedOnly) + Elems(d.producedOnly) + Elems(d.consumedAndProduced) == Elems(d.topicList)
      && Elems(d.topicList) == Elems(consumed) + Elems(produced)
  {
    var d := DeriveTopicLists(consumed, produced);
    assert forall t :: t in d.topicList <==> t in consumed || t in produced by {
      assert forall t :: t in d.topicList <==> t in Elems(d.topicList);
    }
    match VerifyTopicExistence(d.topicList, b)
    case Failure(missing) => Failure(missing)
    case Success(_) => Success(Handler(consumed, produced, d))
  }

  // ---------------------------------------------------------------------------------------------
  // Empty topics (copying version)
  // ---------------------------------------------------------------------------------------------

  /** The outer loop of `list_empty_topics`: walk the argument list, removing from the copy `acc`. */
  function ScanCopy(b: Catalog, work: seq<Topic>, acc: seq<Topic>): Result<seq<Topic>, RemoveError>
    requires Knows(b, work)
    decreases |work|
  {
    if work == [] then Success(acc)
    else
      match RemoveForPartitions(acc, work[0], b[work[0]])
      case None => Failure(TopicNotInList(work[0]))
      case Some(rest) => ScanCopy(b, work[1..], rest)
  }

  /** `list_empty_topics(topic_list)`: removes from a copy of the list, once per partition holding messages. */
  function ListEmptyTopics(b: Catalog, topics: seq<Topic>): (r: Result<seq<Topic>, RemoveError>)
    requires Knows(b, topics)
    ensures Distinct(topics) && HasBusyTopic(b, topics) ==> r.Failure?
    ensures Distinct(topics) && !HasBusyTopic(b, topics) ==> r == Success(EmptyTopicsIn(b, topics))
  {
    if Distinct(topics) then
      assert [] + topics == topics;
      ScanCopyGeneral(b, [], topics);
      assert [] + EmptyTopicsIn(b, topics) == EmptyTopicsIn(b, topics);
      ScanCopy(b, topics, topics)
    else
      ScanCopy(b, topics, topics)
  }

  /**
   * The copying scan over `work`, started on `kept + work`: the kept prefix survives, and the rest
   * is either the empty topics of `work` or a failure when some topic of `work` is busy.
   */
  lemma {:induction false} ScanCopyGeneral(b: Catalog, kept: seq<Topic>, work: seq<Topic>)
    requires Knows(b, work) && Distinct(kept + work)
    ensures HasBusyTopic(b, work) ==> ScanCopy(b, work, kept + work).Failure?
    ensures !HasBusyTopic(b, work) ==> ScanCopy(b, work, kept + work) == Success(kept + EmptyTopicsIn(b, work))
    decreases |work|, 1
  {
    if work == [] {
      assert kept + work == kept + EmptyTopicsIn(b, work);
    } else {
      var x, rest := work[0], work[1..];
      assert work == [x] + rest;
      ScanHead(b, kept, x, rest);
      BusyHead(b, x, rest);
      if NonEmptyCount(b[x]) == 0 {
        ScanKeep(b, kept, x, rest);
      } else if NonEmptyCount(b[x]) == 1 {
        ScanCopyGeneral(b, kept, rest);
      }
    }
  }

  /** The copying scan past a topic without data: the topic stays, right after the kept prefix. */
  lemma {:induction false} ScanKeep(b: Catalog, kept: seq<Topic>, x: Topic, rest: seq<Topic>)
    requires Knows(b, rest) && Distinct((kept + [x]) + rest)
    ensures !HasBusyTopic(b, rest) ==> ScanCopy(b, rest, (kept + [x]) + rest) == Success(kept + ([x] + EmptyTopicsIn(b, rest)))
    ensures HasBusyTopic(b, rest) ==> ScanCopy(b, rest, (kept + [x]) + rest).Failure?
    decreases |rest| + 1, 0
  {
    ScanCopyGeneral(b, kept + [x], rest);
    assert (kept + [x]) + EmptyTopicsIn(b, rest) == kept + ([x] + EmptyTopicsIn(b, rest));
  }

  /** One step of the copying scan, at a topic that occurs once in the copy, right after the kept prefix. */
  lemma ScanHead(b: Catalog, kept: seq<Topic>, x: Topic, rest: seq<Topic>)
    requires Knows(b, [x] + rest) && Distinct(kept + ([x] + rest))
    ensures Knows(b, rest) && Distinct(kept + rest) && Distinct((kept + [x]) + rest)
    ensures NonEmptyCount(b[x]) == 0 ==> ScanCopy(b, [x] + rest, kept + ([x] + rest)) == ScanCopy(b, rest, (kept + [x]) + rest)
    ensures NonEmptyCount(b[x]) == 1 ==> ScanCopy(b, [x] + rest, kept + ([x] + rest)) == ScanCopy(b, rest, kept + rest)
    ensures NonEmptyCount(b[x]) >= 2 ==> ScanCopy(b, [x] + rest, kept + ([x] + rest)).Failure?
  {
    var work := [x] + rest;
    assert work[0] == x && work[1..] == rest;
    assert kept + work == kept + [x] + rest == (kept + [x]) + rest;
    DistinctDrop(kept, x, rest);
    RemoveForPartitionsOnce(kept, x, rest, b[x]);
  }

  /** The busy test and the list of empty topics, split at the head of the list. */
  lemma BusyHead(b: Catalog, x: Topic, rest: seq<Topic>)
    requires Knows(b, [x] + rest)
    ensures Knows(b, rest)
    ensures HasBusyTopic(b, [x] + rest) <==> NonEmptyCount(b[x]) >= 2 || HasBusyTopic(b, rest)
    ensures EmptyTopicsIn(b, [x] + rest) == if NonEmptyCount(b[x]) == 0 then [x] + EmptyTopicsIn(b, rest) else EmptyTopicsIn(b, rest)
  {
    var work := [x] + rest;
    assert work[0] == x && work[1..] == rest;
    assert forall t :: t in work <==> t == x || t in rest;
  }

  /** A topic with two non-empty partitions: the second `remove` fails. */
  lemma BusyTopicFails()
    ensures ListEmptyTopics(map["a" := [PartitionInfo(0, 0, 1), PartitionInfo(1, 0, 1)]], ["a"]).Failure?
  {
    var b := map["a" := [PartitionInfo(0, 0, 1), PartitionInfo(1, 0, 1)]];
    assert NonEmptyCount(b["a"]) == 2 by {
      assert b["a"][1..] == [PartitionInfo(1, 0, 1)];
    }
    assert HasBusyTopic(b, ["a"]);
  }

  // ---------------------------------------------------------------------------------------------
  // Seeking and reducing
  // ---------------------------------------------------------------------------------------------

  /** `seek_topic_partitions_latest`: the seeks issued for the consumed topics. */
  function SeekTopicPartitionsLatest(h: Handler, b: Catalog): (r: Result<seq<Seek>, SeekError>)
    requires Knows(b, h.consumed)
    ensures r.Failure? <==> exists t, j :: t in h.consumed && 0 <= j < |b[t]| && b[t][j].end > 0 && b[t][j].partition >= |b[t]|
    ensures AllCanonical(b, h.consumed) ==> r.Success? && SeeksExactlyLatest(b, h.consumed, r.value)
  {
    if AllCanonical(b, h.consumed) then
      SeekLatestCanonical(b, h.consumed);
      SeekLatest(b, h.consumed)
    else
      SeekLatest(b, h.consumed)
  }

  /**
   * `get_latest_topic_messages_to_dict_poll_based` for the polls that ran: the seek to the latest
   * records comes first, and its failure ends the program; otherwise the value dictionary.
   */
  function LatestTopicMessages(h: Handler, b: Catalog, bs: seq<seq<Record>>): (r: Result<map<Topic, Option<Value>>, SeekError>)
    requires Ready(h, b) && Latest.BatchesFrom(bs, Latest.Initial(h.consumed))
    ensures Knows(b, h.consumed)
    ensures r.Failure? <==> SeekTopicPartitionsLatest(h, b).Failure?
    ensures r.Success? ==> forall t :: t in r.value <==> t in h.consumed
    ensures r.Success? ==> forall t :: t in r.value ==> (r.value[t].None? <==> Latest.NoneNewer(Flatten(bs), t, 0))
    ensures r.Success? ==> forall t :: t in r.value && r.value[t].Some? ==>
              exists i :: Latest.FirstMaximum(Flatten(bs), t, i) && Flatten(bs)[i].timestamp > 0
                          && r.value[t] == Some(Flatten(bs)[i].value)
  {
    KnowsConsumed(b, h.consumed, h.produced);
    match SeekTopicPartitionsLatest(h, b)
    case Failure(e) => Failure(e)
    case Success(_) => Success(Latest.LatestValues(h.consumed, bs))
  }

  // ---------------------------------------------------------------------------------------------
  // Termination: positions against end offsets
  // ---------------------------------------------------------------------------------------------

  /** `consumer.position` raised for a partition the consumer is not assigned. */
  datatype PositionError = NotAssigned(tp: TopicPartition)

  /** The comprehension of `topic_positions_reached_last_offsets` for one topic: the topic once per partition whose position is below its end offset. */
  function NotReachedIn(t: Topic, parts: seq<PartitionInfo>, positions: map<TopicPartition, int>): (r: Result<seq<Topic>, PositionError>)
    ensures r.Failure? <==> exists p :: p in parts && TopicPartition(t, p.partition) !in positions
    ensures r.Success? ==> (r.value == [] <==> forall p :: p in parts ==> positions[TopicPartition(t, p.partition)] >= p.end)
    decreases |parts|
  {
    if parts == [] then Success([])
    else
      assert parts == [parts[0]] + parts[1..];
      var tp := TopicPartition(t, parts[0].partition);
      if tp !in positions then Failure(NotAssigned(tp))
      else
        match NotReachedIn(t, parts[1..], positions)
        case Failure(e) => Failure(e)
        case Success(rest) => Success(if positions[tp] < parts[0].end then [t] + rest else rest)
  }

  /** The comprehension over all listed topics. */
  function NotReached(b: Catalog, positions: map<TopicPartition, int>, topics: seq<Topic>): (r: Result<seq<Topic>, PositionError>)
    requires Knows(b, topics)
    ensures r.Failure? <==> !AllAssigned(b, positions, topics)
    ensures r.Success? ==> (r.value == [] <==> Drained(b, positions, topics))
    decreases |topics|
  {
    if topics == [] then Success([])
    else
      var t := topics[0];
      assert topics == [t] + topics[1..];
      match NotReachedIn(t, b[t], positions)
      case Failure(e) => Failure(e)
      case Success(here) =>
        match NotReached(b, positions, topics[1..])
        case Failure(e) => Failure(e)
        case Success(later) => Success(here + later)
  }

  /** The consumer has a position for every partition of every listed topic. */
  predicate AllAssigned(b: Catalog, positions: map<TopicPartition, int>, topics: seq<Topic>)
    requires Knows(b, topics)
  {
    forall t, p :: t in topics && p in b[t] ==> TopicPartition(t, p.partition) in positions
  }

  /** Every partition of every listed topic has a position at or past its end offset. */
  predicate Drained(b: Catalog, positions: map<TopicPartition, int>, topics: seq<Topic>)
    requires Knows(b, topics) && AllAssigned(b, positions, topics)
  {
    forall t, p :: t in topics && p in b[t] ==> positions[TopicPartition(t, p.partition)] >= p.end
  }

  /**
   * `topic_positions_reached_last_offsets`: true exactly when every partition of every listed
   * topic has position >= end offset; the exit on an unassigned partition becomes a failure.
   */
  function PositionsReachedLastOffsets(b: Catalog, positions: map<TopicPartition, int>, topics: seq<Topic>): (r: Result<bool, PositionError>)
    requires Knows(b, topics)
    ensures r.Failure? <==> !AllAssigned(b, positions, topics)
    ensures r.Success? ==> (r.value <==> Drained(b, positions, topics))
    ensures topics == [] ==> r == Success(true)
  {
    match NotReached(b, positions, topics)
    case Failure(e) => Failure(e)
    case Success(pending) => Success(|pending| == 0)
  }

  // ---------------------------------------------------------------------------------------------
  // Tabular snapshot
  // ---------------------------------------------------------------------------------------------

  /** One row of the data frame: the record's fields under the column names topic, partition, offset, timestamp, key, value. */
  datatype Row = Row(topic: Topic, partition: nat, offset: int, timestamp: int, key: Key, value: Value)

  function ToRow(r: Record): Row {
    Row(r.topic, r.partition, r.offset, r.timestamp, r.key, r.value)
  }

  /** The rows of the records, in arrival order. */
  function Rows(rs: seq<Record>): (rows: seq<Row>)
    ensures |rows| == |rs|
    ensures forall i :: 0 <= i < |rs| ==> rows[i] == ToRow(rs[i])
  {
    seq(|rs|, i requires 0 <= i < |rs| => ToRow(rs[i]))
  }

  /** `dataframe[dataframe.key == msg_key_filter]`. */
  function WithKey(rows: seq<Row>, f: Key): (r: seq<Row>)
    ensures IsSubsequence(r, rows)
    ensures forall row :: row in r <==> row in rows && row.key == f
    ensures forall row :: multiset(r)[row] == if row.key == f then multiset(rows)[row] else 0
    decreases |rows|
  {
    if rows == [] then []
    else
      assert rows == [rows[0]] + rows[1..];
      var rest := WithKey(rows[1..], f);
      if rows[0].key == f then [rows[0]] + rest else rest
  }

  /** `series.max()` over the offsets; `None` is the NaN of an empty series. */
  function MaxOffset(rows: seq<Row>): (r: Option<int>)
    ensures r.None? <==> rows == []
    ensures r.Some? ==> (exists row :: row in rows && row.offset == r.value) && forall row :: row in rows ==> row.offset <= r.value
    decreases |rows|
  {
    if rows == [] then None
    else
      assert rows == [rows[0]] + rows[1..];
      match MaxOffset(rows[1..])
      case None => Some(rows[0].offset)
      case Some(m) => Some(if rows[0].offset > m then rows[0].offset else m)
  }

  /** `dataframe[dataframe.offset == m]`; comparing against NaN keeps nothing. */
  function AtOffset(rows: seq<Row>, m: Option<int>): (r: seq<Row>)
    ensures IsSubsequence(r, rows)
    ensures forall row :: row in r <==> row in rows && m == Some(row.offset)
    ensures forall row :: multiset(r)[row] == if m == Some(row.offset) then multiset(rows)[row] else 0
    decreases |rows|
  {
    if rows == [] then []
    else
      assert rows == [rows[0]] + rows[1..];
      var rest := AtOffset(rows[1..], m);
      if m == Some(rows[0].offset) then [rows[0]] + rest else rest
  }

  /** The row has key `f` and no row with key `f` has a greater offset. */
  predicate LatestWithKey(rows: seq<Row>, f: Key, row: Row) {
    row.key == f && forall q :: q in rows && q.key == f ==> q.offset <= row.offset
  }

  /**
   * `filter_kafka_data_frame_by_msg_key`: an empty frame is returned as it is; otherwise the
   * rows with key `f` in order, and with `latest` only those whose offset is the largest
   * among them, however many share it.
   */
  function FilterByKey(rows: seq<Row>, f: Key, latest: bool): (r: seq<Row>)
    ensures rows == [] ==> r == rows
    ensures IsSubsequence(r, rows)
    ensures !latest ==> forall row :: row in r <==> row in rows && row.key == f
    ensures latest ==> forall row :: row in r <==> row in rows && LatestWithKey(rows, f, row)
    ensures !latest ==> forall row :: multiset(r)[row] == if row.key == f then multiset(rows)[row] else 0
    ensures latest ==> forall row :: multiset(r)[row] == if LatestWithKey(rows, f, row) then multiset(rows)[row] else 0
    ensures r == [] <==> forall row :: row in rows ==> row.key != f
  {
    if rows == [] then rows
    else
      var byKey := WithKey(rows, f);
      if latest then
        var m := MaxOffset(byKey);
        var r := AtOffset(byKey, m);
        SubsequenceTransitive(r, byKey, rows);
        LatestCounts(rows, f);
        assert byKey != [] ==> byKey[0] in byKey;
        assert byKey != [] ==> r != [] by {
          if byKey != [] {
            var row :| row in byKey && row.offset == m.value;
            assert row in r;
          }
        }
        r
      else
        assert byKey != [] ==> byKey[0] in byKey;
        byKey
  }

  /** The rows the latest-by-key filter keeps are kept as often as they occur. */
  lemma LatestCounts(rows: seq<Row>, f: Key)
    ensures var byKey := WithKey(rows, f);
            forall row :: multiset(AtOffset(byKey, MaxOffset(byKey)))[row] == if LatestWithKey(rows, f, row) then multiset(rows)[row] else 0
  {
    forall row {
      LatestCount(rows, f, row);
    }
  }

  lemma LatestCount(rows: seq<Row>, f: Key, row: Row)
    ensures var byKey := WithKey(rows, f);
            multiset(AtOffset(byKey, MaxOffset(byKey)))[row] == if LatestWithKey(rows, f, row) then multiset(rows)[row] else 0
  {
    var byKey := WithKey(rows, f);
    var m := MaxOffset(byKey);
    assert multiset(AtOffset(byKey, m))[row] == if m == Some(row.offset) then multiset(byKey)[row] else 0;
    assert multiset(byKey)[row] == if row.key == f then multiset(rows)[row] else 0;
    if row.key == f && row in rows {
      LatestAtMax(rows, f, row);
    }
  }

  /** A row with key `f` is a latest one exactly when its offset is the maximum over the rows with key `f`. */
  lemma LatestAtMax(rows: seq<Row>, f: Key, row: Row)
    requires row in rows && row.key == f
    ensures LatestWithKey(rows, f, row) <==> MaxOffset(WithKey(rows, f)) == Some(row.offset)
  {
    var byKey := WithKey(rows, f);
    var m := MaxOffset(byKey);
    assert row in byKey;
    assert byKey != [] && m.Some? && row.offset <= m.value;
    if LatestWithKey(rows, f, row) {
      var top :| top in byKey && top.offset == m.value;
      assert top in rows && top.key == f;
      assert top.offset <= row.offset;
      assert m.value == row.offset;
    } else {
      var q :| q in rows && q.key == f && q.offset > row.offset;
      assert q in byKey;
      assert q.offset <= m.value;
    }
  }

  lemma {:induction false} SubsequenceTransitive(a: seq<Row>, b: seq<Row>, c: seq<Row>)
    requires IsSubsequence(a, b) && IsSubsequence(b, c)
    ensures IsSubsequence(a, c)
    decreases |c|
  {
    if c != [] {
      if b != [] && b[0] == c[0] && IsSubsequence(b[1..], c[1..]) {
        if a != [] && a[0] == b[0] && IsSubsequence(a[1..], b[1..]) {
          SubsequenceTransitive(a[1..], b[1..], c[1..]);
        } else {
          SubsequenceTransitive(a, b[1..], c[1..]);
        }
      } else {
        SubsequenceTransitive(a, b, c[1..]);
      }
    } else {
      assert b == [] && a == [];
    }
  }

  /** The rows with key `f` and offset `m`, in order. */
  function Select(rows: seq<Row>, f: Key, m: int): seq<Row>
    decreases |rows|
  {
    if rows == [] then []
    else if rows[0].key == f && rows[0].offset == m then [rows[0]] + Select(rows[1..], f, m)
    else Select(rows[1..], f, m)
  }

  /** Filtering by key and then by offset is filtering by both at once. */
  lemma {:induction false} AtOffsetWithKey(rows: seq<Row>, f: Key, m: int)
    ensures AtOffset(WithKey(rows, f), Some(m)) == Select(rows, f, m)
    decreases |rows|
  {
    if rows != [] {
      AtOffsetWithKey(rows[1..], f, m);
      if rows[0].key == f {
        assert ([rows[0]] + WithKey(rows[1..], f))[1..] == WithKey(rows[1..], f);
      }
    }
  }

  /** The first selected row is the first row of `rows` with key `f` and offset `m`. */
  lemma {:induction false} FirstSelected(rows: seq<Row>, f: Key, m: int)
    requires Select(rows, f, m) != []
    ensures exists i :: 0 <= i < |rows| && rows[i].key == f && rows[i].offset == m
                        && Select(rows, f, m)[0] == rows[i]
                        && forall j :: 0 <= j < i ==> !(rows[j].key == f && rows[j].offset == m)
    decreases |rows|
  {
    if !(rows[0].key == f && rows[0].offset == m) {
      var rest := rows[1..];
      FirstSelected(rest, f, m);
      var i :| 0 <= i < |rest| && rest[i].key == f && rest[i].offset == m
               && Select(rest, f, m)[0] == rest[i]
               && forall j :: 0 <= j < i ==> !(rest[j].key == f && rest[j].offset == m);
      assert rows[i + 1] == rest[i];
      assert forall j :: 1 <= j < i + 1 ==> rows[j] == rest[j - 1];
    }
  }

  /**
   * `extract_value_from_kafka_dataframe`: the value of the first row that has key `f` and the
   * largest offset among rows with that key, or `None` when no row has the key; never an error.
   */
  function ExtractValue(rows: seq<Row>, f: Key): (r: Option<Value>)
    ensures r.None? <==> forall row :: row in rows ==> row.key != f
    ensures r.Some? ==> exists i :: 0 <= i < |rows| && LatestWithKey(rows, f, rows[i]) && r.value == rows[i].value
                                    && forall j :: 0 <= j < i ==> !LatestWithKey(rows, f, rows[j])
  {
    var latest := FilterByKey(rows, f, true);
    if latest != [] then
      FirstLatest(rows, f);
      Some(latest[0].value)
    else
      None
  }

  /** The first row the latest-by-key filter keeps is the first row with key `f` at the largest offset. */
  lemma FirstLatest(rows: seq<Row>, f: Key)
    requires FilterByKey(rows, f, true) != []
    ensures exists i :: 0 <= i < |rows| && LatestWithKey(rows, f, rows[i]) && FilterByKey(rows, f, true)[0] == rows[i]
                        && forall j :: 0 <= j < i ==> !LatestWithKey(rows, f, rows[j])
  {
    var m := MaxOffset(WithKey(rows, f));
    assert FilterByKey(rows, f, true) == AtOffset(WithKey(rows, f), m);
    AtOffsetWithKey(rows, f, m.value);
    FirstSelected(rows, f, m.value);
    var i :| 0 <= i < |rows| && rows[i].key == f && rows[i].offset == m.value
             && Select(rows, f, m.value)[0] == rows[i]
             && forall j :: 0 <= j < i ==> !(rows[j].key == f && rows[j].offset == m.value);
    LatestAtMax(rows, f, rows[i]);
    forall j | 0 <= j < i
      ensures !LatestWithKey(rows, f, rows[j])
    {
      if rows[j].key == f {
        LatestAtMax(rows, f, rows[j]);
      }
    }
  }

  /**
   * `get_kafka_messages_to_pandas_dataframe` after polling: one row per polled record in arrival
   * order, filtered by key when a key filter is given.
   */
  function DataFrame(bs: seq<seq<Record>>, keyFilter: Option<Key>, latestByKey: bool): (r: seq<Row>)
    ensures keyFilter.None? ==> |r| == |Flatten(bs)| && forall i :: 0 <= i < |r| ==> r[i] == ToRow(Flatten(bs)[i])
    ensures IsSubsequence(r, Rows(Flatten(bs)))
    ensures keyFilter.Some? && !latestByKey ==>
      forall row :: row in r <==> row in Rows(Flatten(bs)) && row.key == keyFilter.value
    ensures keyFilter.Some? && latestByKey ==>
      forall row :: row in r <==> row in Rows(Flatten(bs)) && LatestWithKey(Rows(Flatten(bs)), keyFilter.value, row)
    ensures keyFilter.Some? && !latestByKey ==>
      forall row :: multiset(r)[row] == if row.key == keyFilter.value then multiset(Rows(Flatten(bs)))[row] else 0
    ensures keyFilter.Some? && latestByKey ==>
      forall row :: multiset(r)[row] == if LatestWithKey(Rows(Flatten(bs)), keyFilter.value, row) then multiset(Rows(Flatten(bs)))[row] else 0
  {
    var rows := Rows(Flatten(bs));
    match keyFilter
    case None =>
      IsSubsequenceRefl(rows);
      rows
    case Some(f) => FilterByKey(rows, f, latestByKey)
  }

  lemma {:induction false} IsSubsequenceRefl(xs: seq<Row>)
    ensures IsSubsequence(xs, xs)
    decreases |xs|
  {
    if xs != [] {
      IsSubsequenceRefl(xs[1..]);
    }
  }

  /** Rows (offset 1, k1, X), (offset 2, k2, Y), (offset 3, k1, Z): the latest row with key k1 is the third alone. */
  lemma LatestByKeyExample()
    ensures FilterByKey([Row("t", 0, 1, 0, "k1", "X"), Row("t", 0, 2, 0, "k2", "Y"), Row("t", 0, 3, 0, "k1", "Z")], "k1", true)
         == [Row("t", 0, 3, 0, "k1", "Z")]
  {
    var rows := [Row("t", 0, 1, 0, "k1", "X"), Row("t", 0, 2, 0, "k2", "Y"), Row("t", 0, 3, 0, "k1", "Z")];
    var x, z := rows[0], rows[2];
    assert FilterByKey(rows, "k1", true) == [z] by {
      assert rows[1..][1..] == [z] && rows[1..][1..][1..] == [];
      assert WithKey(rows, "k1") == [x, z];
      assert [x, z][1..] == [z];
      assert MaxOffset([x, z]) == Some(3);
      assert AtOffset([x, z], Some(3)) == [z];
    }
  }

  /** The same rows with a key none of them has: the value extracted is `None`. */
  lemma AbsentKeyExtractsNone()
    ensures ExtractValue([Row("t", 0, 1, 0, "k1", "X"), Row("t", 0, 2, 0, "k2", "Y"), Row("t", 0, 3, 0, "k1", "Z")], "k3") == None
  {
  }
}
