/**
 * The latest-value-per-topic reducer both helper classes run over polled records: every
 * consumed topic starts at timestamp 0 with no value, and a record replaces its topic's
 * entry only when its timestamp is strictly greater than the stored one.
 */
module Latest {
  import opened Base
  import opened Broker

  /** The stored timestamp and value of one topic; `None` is Python's `None` before any replacement. */
  datatype Entry = Entry(timestamp: int, value: Option<Value>)

  /** The timestamp and value dictionaries of `create_topic_latest_dicts`, zipped by topic. */
  type Projection = map<Topic, Entry>

  /** Both dictionaries as `create_topic_latest_dicts` fills them: every consumed topic at timestamp 0, value `None`. */
  function Initial(consumed: seq<Topic>): (m: Projection)
    ensures forall t :: t in m <==> t in consumed
    ensures forall t :: t in m ==> m[t].timestamp == 0 && m[t].value == None
  {
    map t | t in consumed :: Entry(0, None)
  }

  /** Every record belongs to a topic the projection tracks (the consumer is subscribed to exactly the consumed topics). */
  predicate AllFrom(rs: seq<Record>, m: Projection) {
    forall i :: 0 <= i < |rs| ==> rs[i].topic in m
  }

  /** One iteration of the reducer body: replace the record's topic entry if and only if the record is strictly newer. */
  function Step(m: Projection, r: Record): (m': Projection)
    requires r.topic in m
    ensures m'.Keys == m.Keys
  {
    if r.timestamp > m[r.topic].timestamp then m[r.topic := Entry(r.timestamp, Some(r.value))] else m
  }

  /** One reducer step: strictly newer records replace, ties and older records leave the entry alone, other topics never change, and no timestamp goes down. */
  lemma StepReplacesOnlyNewer(m: Projection, r: Record)
    requires r.topic in m
    ensures r.timestamp > m[r.topic].timestamp ==> Step(m, r)[r.topic] == Entry(r.timestamp, Some(r.value))
    ensures r.timestamp <= m[r.topic].timestamp ==> Step(m, r)[r.topic] == m[r.topic]
    ensures forall t :: t in m && t != r.topic ==> Step(m, r)[t] == m[t]
    ensures forall t :: t in m ==> Step(m, r)[t].timestamp >= m[t].timestamp
  {
  }

  /** The reducer over records in arrival order. */
  function Reduce(m: Projection, rs: seq<Record>): (r: Projection)
    requires AllFrom(rs, m)
    ensures r.Keys == m.Keys
    decreases |rs|
  {
    if rs == [] then m
    else
      assert AllFrom(rs[..|rs| - 1], m);
      Step(Reduce(m, rs[..|rs| - 1]), rs[|rs| - 1])
  }

  /** No record of topic `t` is newer than `ts`. */
  predicate NoneNewer(rs: seq<Record>, t: Topic, ts: int) {
    forall j :: 0 <= j < |rs| && rs[j].topic == t ==> rs[j].timestamp <= ts
  }

  /** Record `i` is the first record of topic `t` that attains the topic's maximum timestamp. */
  predicate FirstMaximum(rs: seq<Record>, t: Topic, i: int) {
    && 0 <= i < |rs| && rs[i].topic == t
    && NoneNewer(rs, t, rs[i].timestamp)
    && (forall j :: 0 <= j < i && rs[j].topic == t ==> rs[j].timestamp < rs[i].timestamp)
  }

  lemma FirstMaximumUnique(rs: seq<Record>, t: Topic, i: int, k: int)
    requires FirstMaximum(rs, t, i) && FirstMaximum(rs, t, k)
    ensures i == k
  {
  }

  /**
   * What the reducer leaves for one topic: either the starting entry, when no record of the
   * topic is newer than it, or the first record attaining the topic's maximum timestamp, when
   * that maximum exceeds the starting timestamp. The stored timestamp bounds every record of the topic.
   */
  lemma {:induction false} ReduceKeepsFirstMaximum(m: Projection, rs: seq<Record>, t: Topic)
    requires AllFrom(rs, m) && t in m
    ensures NoneNewer(rs, t, Reduce(m, rs)[t].timestamp)
    ensures || (Reduce(m, rs)[t] == m[t] && NoneNewer(rs, t, m[t].timestamp))
            || (exists i :: FirstMaximum(rs, t, i) && rs[i].timestamp > m[t].timestamp
                            && Reduce(m, rs)[t] == Entry(rs[i].timestamp, Some(rs[i].value)))
    decreases |rs|
  {
    if rs != [] {
      var n := |rs| - 1;
      var pre := rs[..n];
      var x := rs[n];
      assert rs == pre + [x];
      assert AllFrom(pre, m);
      ReduceKeepsFirstMaximum(m, pre, t);
      var before := Reduce(m, pre);
      assert Reduce(m, rs) == Step(before, x);
      if x.topic == t && x.timestamp > before[t].timestamp {
        NewMaximum(pre, x, t, before[t].timestamp);
      } else {
        assert Reduce(m, rs)[t] == before[t];
        NoneNewerExtend(pre, x, t, before[t].timestamp);
        if before[t] != m[t] || !NoneNewer(pre, t, m[t].timestamp) {
          var i :| FirstMaximum(pre, t, i) && pre[i].timestamp > m[t].timestamp
                   && before[t] == Entry(pre[i].timestamp, Some(pre[i].value));
          KeepMaximum(pre, x, t, i);
        } else {
          NoneNewerExtend(pre, x, t, m[t].timestamp);
        }
      }
    }
  }

  /** A record of `t` newer than all before it is the first maximum of the longer run. */
  lemma NewMaximum(pre: seq<Record>, x: Record, t: Topic, ts: int)
    requires NoneNewer(pre, t, ts) && x.topic == t && x.timestamp > ts
    ensures FirstMaximum(pre + [x], t, |pre|)
  {
    var rs := pre + [x];
    forall j | 0 <= j < |pre| ensures rs[j] == pre[j] {
    }
  }

  /** A record that is not newer than `ts` for `t` keeps `ts` a bound for `t`. */
  lemma NoneNewerExtend(pre: seq<Record>, x: Record, t: Topic, ts: int)
    requires NoneNewer(pre, t, ts) && (x.topic == t ==> x.timestamp <= ts)
    ensures NoneNewer(pre + [x], t, ts)
  {
    var rs := pre + [x];
    forall j | 0 <= j < |pre| ensures rs[j] == pre[j] {
    }
  }

  /** A record of `t` that is not newer than the first maximum leaves the first maximum in place. */
  lemma KeepMaximum(pre: seq<Record>, x: Record, t: Topic, i: int)
    requires FirstMaximum(pre, t, i) && (x.topic == t ==> x.timestamp <= pre[i].timestamp)
    ensures FirstMaximum(pre + [x], t, i)
  {
    var rs := pre + [x];
    forall j | 0 <= j < |pre| ensures rs[j] == pre[j] {
    }
  }

  /**
   * From the initial projection: a topic keeps `None` exactly when none of its records has a
   * timestamp above 0; otherwise it holds the value of its first record with the maximum timestamp.
   */
  lemma LatestFromInitial(consumed: seq<Topic>, rs: seq<Record>, t: Topic)
    requires AllFrom(rs, Initial(consumed)) && t in consumed
    ensures Reduce(Initial(consumed), rs)[t].value.None? <==> NoneNewer(rs, t, 0)
    ensures Reduce(Initial(consumed), rs)[t].value.Some? ==>
              exists i :: FirstMaximum(rs, t, i) && rs[i].timestamp > 0
                          && Reduce(Initial(consumed), rs)[t].value == Some(rs[i].value)
  {
    ReduceKeepsFirstMaximum(Initial(consumed), rs, t);
  }

  /** Reducing two runs of records one after the other is reducing their concatenation. */
  lemma {:induction false} ReduceAppend(m: Projection, a: seq<Record>, b: seq<Record>)
    requires AllFrom(a, m) && AllFrom(b, m)
    ensures AllFrom(a + b, m)
    ensures Reduce(m, a + b) == Reduce(Reduce(m, a), b)
    decreases |b|
  {
    if b == [] {
      assert a + b == a;
    } else {
      var n := |b| - 1;
      assert (a + b)[..|a + b| - 1] == a + b[..n];
      assert AllFrom(b[..n], m);
      ReduceAppend(m, a, b[..n]);
    }
  }

  /** Every batch holds only records of tracked topics. */
  predicate BatchesFrom(bs: seq<seq<Record>>, m: Projection) {
    forall k :: 0 <= k < |bs| ==> AllFrom(bs[k], m)
  }

  /** The first `n` polls of a sequence of polls of tracked topics are polls of tracked topics. */
  lemma BatchesPrefix(bs: seq<seq<Record>>, m: Projection, n: nat)
    requires BatchesFrom(bs, m) && n <= |bs|
    ensures BatchesFrom(bs[..n], m)
  {
    forall k | 0 <= k < n ensures AllFrom(bs[..n][k], m) {
      assert bs[..n][k] == bs[k];
    }
  }

  /** The reducer run poll by poll: the outer `while` over polls and the inner loop over a poll's records. */
  function ReduceBatches(m: Projection, bs: seq<seq<Record>>): (r: Projection)
    requires BatchesFrom(bs, m)
    ensures r.Keys == m.Keys
    decreases |bs|
  {
    if bs == [] then m
    else Reduce(ReduceBatches(m, bs[..|bs| - 1]), bs[|bs| - 1])
  }

  /** Poll boundaries do not matter: reducing poll by poll equals reducing all records in arrival order. */
  lemma {:induction false} ReduceBatchesFlatten(m: Projection, bs: seq<seq<Record>>)
    requires BatchesFrom(bs, m)
    ensures AllFrom(Flatten(bs), m)
    ensures ReduceBatches(m, bs) == Reduce(m, Flatten(bs))
    decreases |bs|
  {
    if bs != [] {
      var n := |bs| - 1;
      ReduceBatchesFlatten(m, bs[..n]);
      ReduceAppend(m, Flatten(bs[..n]), bs[n]);
    }
  }

  /** The value dictionary of a projection. */
  function Values(m: Projection): (r: map<Topic, Option<Value>>)
    ensures r.Keys == m.Keys
    ensures forall t :: t in r ==> r[t] == m[t].value
  {
    map t | t in m :: m[t].value
  }

  /**
   * The value dictionary the reducer leaves after the given polls, started from the initial one:
   * per consumed topic, `None` when no record of it is newer than timestamp 0, else the value
   * of its first record with the maximum timestamp over all polls.
   */
  function LatestValues(consumed: seq<Topic>, bs: seq<seq<Record>>): (r: map<Topic, Option<Value>>)
    requires BatchesFrom(bs, Initial(consumed))
    ensures forall t :: t in r <==> t in consumed
    ensures forall t :: t in r ==> (r[t].None? <==> NoneNewer(Flatten(bs), t, 0))
    ensures forall t :: t in r && r[t].Some? ==>
              exists i :: FirstMaximum(Flatten(bs), t, i) && Flatten(bs)[i].timestamp > 0 && r[t] == Some(Flatten(bs)[i].value)
  {
    var m := ReduceBatches(Initial(consumed), bs);
    ReduceBatchesFlatten(Initial(consumed), bs);
    var rs := Flatten(bs);
    var r := Values(m);
    forall t | t in r
      ensures r[t].None? <==> NoneNewer(rs, t, 0)
      ensures r[t].Some? ==> exists i :: FirstMaximum(rs, t, i) && rs[i].timestamp > 0 && r[t] == Some(rs[i].value)
    {
      LatestFromInitial(consumed, rs, t);
    }
    r
  }

  /** Timestamps 5, 3, 7, 7 carrying A, B, C, D: the first record with timestamp 7 wins over the later tie. */
  lemma TieKeepsEarliest()
    ensures Reduce(Initial(["t"]), [Record("t", 0, 0, 5, "k", "A"), Record("t", 0, 1, 3, "k", "B"),
                                    Record("t", 0, 2, 7, "k", "C"), Record("t", 0, 3, 7, "k", "D")])["t"]
         == Entry(7, Some("C"))
  {
    var rs := [Record("t", 0, 0, 5, "k", "A"), Record("t", 0, 1, 3, "k", "B"),
               Record("t", 0, 2, 7, "k", "C"), Record("t", 0, 3, 7, "k", "D")];
    var m := Initial(["t"]);
    assert rs[..1] == [rs[0]] && rs[..1][..0] == [];
    assert Reduce(m, rs[..1])["t"] == Entry(5, Some("A"));
    assert rs[..2][..1] == rs[..1];
    assert Reduce(m, rs[..2])["t"] == Entry(5, Some("A"));
    assert rs[..3][..2] == rs[..2];
    assert Reduce(m, rs[..3])["t"] == Entry(7, Some("C"));
    assert rs[..4] == rs;
  }
}
