/** The key projection of the three shaping collectors
    (`local_diskstats_metrics`, `local_utilization_metrics`,
    `local_process_metrics`). The `gluster.metrics` providers that produce
    the records are outside the model: a collector receives its records, one
    `map<string, string>` per brick or process, and the timestamp it took. */
module Shaping {
  import opened Wrappers
  import opened Metrics

  /** One record yielded by a `gluster.metrics` provider. */
  type Record = map<string, string>

  /** The three shaping collectors. */
  datatype Kind = DiskstatsKind | UtilizationKind | ProcessKind

  /** The metric names a collector sends for each record it accepts. */
  function KeysOf(kind: Kind): seq<string> {
    match kind
    case DiskstatsKind => DiskstatsKeys
    case UtilizationKind => UtilizationKeys
    case ProcessKind => ProcessKeys
  }

  /** `data.get("name", "")`. */
  function NameOf(rec: Record): string {
    if "name" in rec then rec["name"] else ""
  }

  /** All of `fields` are present. */
  predicate HasFields(rec: Record, fields: seq<string>) {
    forall i :: 0 <= i < |fields| ==> fields[i] in rec
  }

  /** The fields `str.format` reads to build the key prefix; the collector
      skips a process record before formatting when it is neither process. */
  function PrefixFields(kind: Kind, rec: Record): seq<string> {
    match kind
    case DiskstatsKind => ["volume", "node_id", "brick"]
    case UtilizationKind => ["volume", "node_id", "brick"]
    case ProcessKind =>
      if NameOf(rec) == "glusterd" then ["node_id"]
      else if NameOf(rec) == "glusterfsd" then ["volname", "node_id", "brick_path"]
      else []
  }

  /** The record is accepted by the collector: it is not a skipped process. */
  predicate Accepted(kind: Kind, rec: Record) {
    kind == ProcessKind ==> NameOf(rec) == "glusterd" || NameOf(rec) == "glusterfsd"
  }

  /** Every field the collector reads is present, so no `KeyError` is
      raised: the prefix fields and, for an accepted record, every metric
      name of the key list. */
  predicate Complete(kind: Kind, rec: Record) {
    && HasFields(rec, PrefixFields(kind, rec))
    && (Accepted(kind, rec) ==> HasFields(rec, KeysOf(kind)))
  }

  /** The `key_pfx` template filled from the record, or `None` when the
      collector skips the record. */
  function KeyPrefix(kind: Kind, rec: Record): (r: Option<string>)
    requires HasFields(rec, PrefixFields(kind, rec))
    ensures r.Some? <==> Accepted(kind, rec)
    ensures r.Some? ==> |r.value| > 0 && r.value[|r.value| - 1] == '.'
  {
    var f := PrefixFields(kind, rec);
    assert forall i :: 0 <= i < |f| ==> f[i] in rec;
    match kind
    case DiskstatsKind =>
      assert f[0] == "volume" && f[1] == "node_id" && f[2] == "brick";
      Some(".diskstats." + rec["volume"] + "." + rec["node_id"] + "." + rec["brick"] + ".")
    case UtilizationKind =>
      assert f[0] == "volume" && f[1] == "node_id" && f[2] == "brick";
      Some(".utilization." + rec["volume"] + "." + rec["node_id"] + "." + rec["brick"] + ".")
    case ProcessKind =>
      if NameOf(rec) == "glusterd" then
        assert f[0] == "node_id";
        Some(".ps." + rec["node_id"] + ".glusterd.")
      else if NameOf(rec) == "glusterfsd" then
        assert f[0] == "volname" && f[1] == "node_id" && f[2] == "brick_path";
        Some(".ps." + rec["volname"] + "." + rec["node_id"] + "." + rec["brick_path"] + ".glusterfsd.")
      else
        None
  }

  /** The inner `for k in metric_keys_*` loop: one sample per metric name,
      in list order, keyed by the prefix followed by the name. */
  function Project(prefix: string, rec: Record, keys: seq<string>, ts: Timestamp): (r: seq<Sample>)
    requires HasFields(rec, keys)
    ensures |r| == |keys|
    ensures forall j :: 0 <= j < |keys| ==>
      && r[j].key == prefix + keys[j]
      && r[j].value == rec[keys[j]]
      && r[j].timestamp == ts
    decreases |keys|
  {
    if keys == [] then
      []
    else
      assert keys[0] in rec;
      assert HasFields(rec, keys[1..]) by {
        forall i | 0 <= i < |keys| - 1 ensures keys[1..][i] in rec {
          assert keys[1..][i] == keys[i + 1];
        }
      }
      [Sample(prefix + keys[0], rec[keys[0]], ts)] + Project(prefix, rec, keys[1..], ts)
  }

  /** A record paired with the prefix its collector formatted for it
      (`None`: skipped). */
  datatype Entry = Entry(prefix: Option<string>, rec: Record)

  /** Every record that is not skipped holds all metric names. */
  predicate Ready(entries: seq<Entry>, keys: seq<string>) {
    forall i :: 0 <= i < |entries| ==> entries[i].prefix.Some? ==> HasFields(entries[i].rec, keys)
  }

  /** The number of records not skipped. */
  function SentCount(entries: seq<Entry>): (r: nat)
    ensures r <= |entries|
    decreases |entries|
  {
    if entries == [] then 0
    else (if entries[0].prefix.Some? then 1 else 0) + SentCount(entries[1..])
  }

  lemma ReadyTail(entries: seq<Entry>, keys: seq<string>)
    requires entries != [] && Ready(entries, keys)
    ensures Ready(entries[1..], keys)
  {
    forall i | 0 <= i < |entries| - 1
      ensures entries[1..][i].prefix.Some? ==> HasFields(entries[1..][i].rec, keys)
    {
      assert entries[1..][i] == entries[i + 1];
    }
  }

  /** The outer loop of a shaping collector: the blocks of the records in
      order, a skipped record contributing nothing. */
  function Emit(entries: seq<Entry>, keys: seq<string>, ts: Timestamp): (r: seq<Sample>)
    requires Ready(entries, keys)
    ensures |r| == SentCount(entries) * |keys|
    ensures AllAt(r, ts)
    decreases |entries|
  {
    if entries == [] then
      []
    else
      ReadyTail(entries, keys);
      var rest := Emit(entries[1..], keys, ts);
      var e := entries[0];
      var n := SentCount(entries[1..]);
      if e.prefix.Some? then
        assert HasFields(e.rec, keys);
        MulSucc(n, |keys|);
        Project(e.prefix.value, e.rec, keys, ts) + rest
      else
        rest
  }

  lemma MulSucc(n: nat, k: nat)
    ensures (n + 1) * k == k + n * k
  {
  }

  /** Every record is complete for the collector. */
  predicate AllComplete(kind: Kind, records: seq<Record>) {
    forall i :: 0 <= i < |records| ==> Complete(kind, records[i])
  }

  /** The records with the prefixes the collector formats for them. */
  function Entries(kind: Kind, records: seq<Record>): (r: seq<Entry>)
    requires AllComplete(kind, records)
    ensures |r| == |records|
    ensures Ready(r, KeysOf(kind))
    ensures forall i :: 0 <= i < |records| ==> r[i].rec == records[i]
    ensures forall i :: 0 <= i < |records| ==> (r[i].prefix.Some? <==> Accepted(kind, records[i]))
  {
    seq(|records|, i requires 0 <= i < |records| && AllComplete(kind, records) =>
      Entry(KeyPrefix(kind, records[i]), records[i]))
  }

  /** One call of a shaping collector: the blocks of its records, in record
      order, all under the one timestamp taken before the loop. */
  function Collect(kind: Kind, records: seq<Record>, ts: Timestamp): (r: seq<Sample>)
    requires AllComplete(kind, records)
    ensures AllAt(r, ts)
  {
    Emit(Entries(kind, records), KeysOf(kind), ts)
  }

  /** What one call of a shaping collector leaves behind: the samples it
      sent and, when `str.format` or `data[k]` raised `KeyError`, the
      missing field. */
  datatype CollectOutcome = CollectOutcome(sent: seq<Sample>, missing: Option<string>)

  /** The first of `fields` absent from the record: the field whose lookup
      raises `KeyError`, fields being read left to right. */
  function FirstMissing(rec: Record, fields: seq<string>): (r: Option<string>)
    ensures r.None? <==> HasFields(rec, fields)
    ensures r.Some? ==> r.value in fields && r.value !in rec
    ensures r.Some? ==>
      exists k :: 0 <= k < |fields| && fields[k] == r.value && forall j :: 0 <= j < k ==> fields[j] in rec
    decreases |fields|
  {
    if fields == [] then
      None
    else if fields[0] !in rec then
      Some(fields[0])
    else
      assert forall i :: 0 <= i < |fields| - 1 ==> fields[1..][i] == fields[i + 1];
      assert HasFields(rec, fields) <==> HasFields(rec, fields[1..]) by {
        if HasFields(rec, fields[1..]) {
          forall i | 0 <= i < |fields| ensures fields[i] in rec {
            if i > 0 {
              assert fields[i] == fields[1..][i - 1];
            }
          }
        }
      }
      var r := FirstMissing(rec, fields[1..]);
      if r.Some? then
        var k :| 0 <= k < |fields| - 1 && fields[1..][k] == r.value && forall j :: 0 <= j < k ==> fields[1..][j] in rec;
        assert fields[k + 1] == r.value && forall j :: 0 <= j < k + 1 ==> fields[j] in rec;
        r
      else
        r
  }

  /** The inner loop over metric names when some may be absent: it sends
      the names before the first absent one, then raises. */
  function ProjectUntil(prefix: string, rec: Record, keys: seq<string>, ts: Timestamp): (r: CollectOutcome)
    ensures r.missing == FirstMissing(rec, keys)
    ensures r.missing.None? ==> HasFields(rec, keys) && r.sent == Project(prefix, rec, keys, ts)
    ensures r.missing.Some? ==> |r.sent| < |keys| && r.missing.value == keys[|r.sent|]
    ensures r.missing.None? ==> |r.sent| == |keys|
    ensures forall j :: 0 <= j < |r.sent| ==>
      && keys[j] in rec
      && r.sent[j] == Sample(prefix + keys[j], rec[keys[j]], ts)
    decreases |keys|
  {
    if keys == [] then
      CollectOutcome([], None)
    else if keys[0] !in rec then
      CollectOutcome([], Some(keys[0]))
    else
      var rest := ProjectUntil(prefix, rec, keys[1..], ts);
      CollectOutcome([Sample(prefix + keys[0], rec[keys[0]], ts)] + rest.sent, rest.missing)
  }

  /** The collector's work on one record: a skipped record sends
      nothing; otherwise the prefix is formatted and the block sent, each
      step able to raise `KeyError`. */
  function RecordBlock(kind: Kind, rec: Record, ts: Timestamp): (r: CollectOutcome)
    ensures AllAt(r.sent, ts)
    ensures r.missing.None? <==> Complete(kind, rec)
    ensures r.missing.Some? ==> |r.sent| < |KeysOf(kind)|
  {
    match FirstMissing(rec, PrefixFields(kind, rec))
    case Some(f) =>
      assert KeysOf(kind) != [];
      CollectOutcome([], Some(f))
    case None =>
      var p := KeyPrefix(kind, rec);
      if p.None? then
        CollectOutcome([], None)
      else
        ProjectUntil(p.value, rec, KeysOf(kind), ts)
  }

  /** On a complete record the block is the one `Collect` sends for it. */
  lemma RecordBlockAgrees(kind: Kind, rec: Record, ts: Timestamp)
    requires Complete(kind, rec)
    ensures AllComplete(kind, [rec])
    ensures RecordBlock(kind, rec, ts) == CollectOutcome(Collect(kind, [rec], ts), None)
  {
    EntriesOne(kind, rec);
    EmitOne(Entry(KeyPrefix(kind, rec), rec), KeysOf(kind), ts);
  }

  /** The entry list of a single complete record. */
  lemma EntriesOne(kind: Kind, rec: Record)
    requires Complete(kind, rec)
    ensures AllComplete(kind, [rec])
    ensures Entries(kind, [rec]) == [Entry(KeyPrefix(kind, rec), rec)]
  {
  }

  /** The output of a single entry: its block, or nothing when skipped. */
  lemma EmitOne(e: Entry, keys: seq<string>, ts: Timestamp)
    requires Ready([e], keys)
    ensures e.prefix.Some? ==> HasFields(e.rec, keys)
    ensures Emit([e], keys, ts) == if e.prefix.Some? then Project(e.prefix.value, e.rec, keys, ts) else []
  {
    assert [e][0] == e && [e][1..] == [];
    if e.prefix.Some? {
      assert Emit([e], keys, ts) == Project(e.prefix.value, e.rec, keys, ts) + [];
    }
  }

  /** A run of records is complete exactly when its head and tail are. */
  lemma AllCompleteCons(kind: Kind, records: seq<Record>)
    requires records != []
    ensures AllComplete(kind, records) <==> Complete(kind, records[0]) && AllComplete(kind, records[1..])
  {
    assert forall i :: 0 <= i < |records| - 1 ==> records[1..][i] == records[i + 1];
    if Complete(kind, records[0]) && AllComplete(kind, records[1..]) {
      forall i | 0 <= i < |records| ensures Complete(kind, records[i]) {
        if i > 0 {
          assert records[i] == records[1..][i - 1];
        }
      }
    }
  }

  /** One call of a shaping collector on any records: the blocks in
      record order until the first missing field, whose `KeyError` ends the
      call with the samples sent so far. */
  function CollectUntil(kind: Kind, records: seq<Record>, ts: Timestamp): (r: CollectOutcome)
    ensures AllAt(r.sent, ts)
    decreases |records|
  {
    if records == [] then
      CollectOutcome([], None)
    else
      var block := RecordBlock(kind, records[0], ts);
      if block.missing.Some? then
        block
      else
        var rest := CollectUntil(kind, records[1..], ts);
        AllAtAppend(block.sent, rest.sent, ts);
        CollectOutcome(block.sent + rest.sent, rest.missing)
  }

  /** `local_diskstats_metrics`: eleven samples per brick when no field is
      missing. */
  function Diskstats(records: seq<Record>, ts: Timestamp): (r: CollectOutcome)
    ensures AllAt(r.sent, ts)
    ensures r.missing.None? <==> AllComplete(DiskstatsKind, records)
    ensures r.missing.None? ==> r.sent == Collect(DiskstatsKind, records, ts)
    ensures r.missing.None? ==> |r.sent| == |records| * |DiskstatsKeys|
  {
    var r := CollectUntil(DiskstatsKind, records, ts);
    CollectUntilRaises(DiskstatsKind, records, ts);
    if r.missing.None? then
      CollectUntilAgrees(DiskstatsKind, records, ts);
      AllSent(DiskstatsKind, records, ts);
      r
    else
      r
  }

  /** `local_utilization_metrics`: seven samples per brick when no field
      is missing. */
  function Utilization(records: seq<Record>, ts: Timestamp): (r: CollectOutcome)
    ensures AllAt(r.sent, ts)
    ensures r.missing.None? <==> AllComplete(UtilizationKind, records)
    ensures r.missing.None? ==> r.sent == Collect(UtilizationKind, records, ts)
    ensures r.missing.None? ==> |r.sent| == |records| * |UtilizationKeys|
  {
    var r := CollectUntil(UtilizationKind, records, ts);
    CollectUntilRaises(UtilizationKind, records, ts);
    if r.missing.None? then
      CollectUntilAgrees(UtilizationKind, records, ts);
      AllSent(UtilizationKind, records, ts);
      r
    else
      r
  }

  /** `local_process_metrics`: only glusterd and glusterfsd records send,
      five samples each, when no field is missing. */
  function Processes(records: seq<Record>, ts: Timestamp): (r: CollectOutcome)
    ensures AllAt(r.sent, ts)
    ensures r.missing.None? <==> AllComplete(ProcessKind, records)
    ensures r.missing.None? ==> r.sent == Collect(ProcessKind, records, ts)
    ensures r.missing.None? ==> |r.sent| == SentCount(Entries(ProcessKind, records)) * |ProcessKeys|
  {
    var r := CollectUntil(ProcessKind, records, ts);
    CollectUntilRaises(ProcessKind, records, ts);
    if r.missing.None? then
      CollectUntilAgrees(ProcessKind, records, ts);
      r
    else
      r
  }

  /** The call raises exactly when some record lacks a field the
      collector reads. */
  lemma {:induction false} CollectUntilRaises(kind: Kind, records: seq<Record>, ts: Timestamp)
    ensures CollectUntil(kind, records, ts).missing.None? <==> AllComplete(kind, records)
    decreases |records|
  {
    if records != [] {
      AllCompleteCons(kind, records);
      CollectUntilRaises(kind, records[1..], ts);
      CollectUntilCons(kind, records, ts);
    }
  }

  /** On records with every field the collector reads, the call raises
      nothing and sends exactly the blocks of `Collect`. */
  lemma {:induction false} CollectUntilAgrees(kind: Kind, records: seq<Record>, ts: Timestamp)
    requires AllComplete(kind, records)
    ensures CollectUntil(kind, records, ts) == CollectOutcome(Collect(kind, records, ts), None)
    decreases |records|
  {
    if records != [] {
      CollectCons(kind, records, ts);
      RecordBlockAgrees(kind, records[0], ts);
      CollectUntilAgrees(kind, records[1..], ts);
      CollectUntilCons(kind, records, ts);
    }
  }

  /** The call on a non-empty run: the head's block, then the tail's
      call unless the head raised. */
  lemma CollectUntilCons(kind: Kind, records: seq<Record>, ts: Timestamp)
    requires records != []
    ensures var b := RecordBlock(kind, records[0], ts);
      var rest := CollectUntil(kind, records[1..], ts);
      CollectUntil(kind, records, ts)
        == if b.missing.Some? then b else CollectOutcome(b.sent + rest.sent, rest.missing)
  {
  }

  /** The call on a run whose head is complete: the head's block, then
      the tail's call. */
  lemma CollectUntilHead(kind: Kind, head: Record, tail: seq<Record>, ts: Timestamp)
    requires Complete(kind, head)
    ensures var rest := CollectUntil(kind, tail, ts);
      CollectUntil(kind, [head] + tail, ts)
        == CollectOutcome(RecordBlock(kind, head, ts).sent + rest.sent, rest.missing)
  {
    assert ([head] + tail)[0] == head && ([head] + tail)[1..] == tail;
    CollectUntilCons(kind, [head] + tail, ts);
  }

  /** The blocks of a complete non-empty run: the head's, then the tail's. */
  lemma CollectCons(kind: Kind, records: seq<Record>, ts: Timestamp)
    requires records != [] && AllComplete(kind, records)
    ensures Complete(kind, records[0]) && AllComplete(kind, [records[0]]) && AllComplete(kind, records[1..])
    ensures Collect(kind, records, ts) == Collect(kind, [records[0]], ts) + Collect(kind, records[1..], ts)
  {
    AllCompleteCons(kind, records);
    EntriesOne(kind, records[0]);
    assert [records[0]] + records[1..] == records;
    CollectAppend(kind, [records[0]], records[1..], ts);
  }

  /** A record missing a field the collector reads ends the call: what the
      complete records before it send (the blocks of `Collect`, by
      `CollectUntilAgrees`) was sent, then at most a partial block of its
      own. */
  lemma {:induction false} MissingFieldStops(kind: Kind, done: seq<Record>, bad: Record, rest: seq<Record>, ts: Timestamp)
    requires AllComplete(kind, done) && !Complete(kind, bad)
    ensures var r := CollectUntil(kind, done + [bad] + rest, ts);
      var before := CollectUntil(kind, done, ts);
      && r.missing.Some? && before.missing.None?
      && before.sent <= r.sent
      && |r.sent| < |before.sent| + |KeysOf(kind)|
    decreases |done|
  {
    CollectUntilRaises(kind, done, ts);
    if done == [] {
      MissingFieldFirst(kind, bad, rest, ts);
    } else {
      AllCompleteCons(kind, done);
      MissingFieldStops(kind, done[1..], bad, rest, ts);
      ConsSplit(done, bad, rest);
      MissingFieldStep(kind, done[0], done[1..], [bad] + rest, ts);
    }
  }

  /** The base case: the first record is the incomplete one. */
  lemma MissingFieldFirst(kind: Kind, bad: Record, rest: seq<Record>, ts: Timestamp)
    requires !Complete(kind, bad)
    ensures var r := CollectUntil(kind, [] + [bad] + rest, ts);
      && r.missing.Some?
      && CollectUntil(kind, [], ts).sent <= r.sent
      && |r.sent| < |CollectUntil(kind, [], ts).sent| + |KeysOf(kind)|
  {
    assert [] + [bad] + rest == [bad] + rest;
    assert ([bad] + rest)[0] == bad;
    CollectUntilCons(kind, [bad] + rest, ts);
  }

  /** The step: a complete head puts the same block in front of both
      calls. */
  lemma MissingFieldStep(kind: Kind, head: Record, done: seq<Record>, after: seq<Record>, ts: Timestamp)
    requires Complete(kind, head)
    requires var r := CollectUntil(kind, done + after, ts);
      var before := CollectUntil(kind, done, ts);
      && r.missing.Some?
      && before.sent <= r.sent
      && |r.sent| < |before.sent| + |KeysOf(kind)|
    ensures var r := CollectUntil(kind, [head] + (done + after), ts);
      var before := CollectUntil(kind, [head] + done, ts);
      && r.missing.Some?
      && before.sent <= r.sent
      && |r.sent| < |before.sent| + |KeysOf(kind)|
  {
    CollectUntilHead(kind, head, done + after, ts);
    CollectUntilHead(kind, head, done, ts);
    PrefixStep(RecordBlock(kind, head, ts).sent, CollectUntil(kind, done, ts).sent,
               CollectUntil(kind, done + after, ts).sent, |KeysOf(kind)|);
  }

  /** A non-empty run as its head in front of its tail, followed by one
      element and a rest. */
  lemma ConsSplit<T>(s: seq<T>, x: T, rest: seq<T>)
    requires s != []
    ensures [s[0]] + s[1..] == s
    ensures s[1..] + [x] + rest == s[1..] + ([x] + rest)
    ensures s + [x] + rest == [s[0]] + (s[1..] + ([x] + rest))
  {
    assert [s[0]] + s[1..] == s;
    assert s + [x] + rest == s + ([x] + rest);
  }

  /** Putting the same samples in front keeps one run a prefix of another,
      and the distance between their lengths. */
  lemma PrefixStep(x: seq<Sample>, a: seq<Sample>, b: seq<Sample>, k: nat)
    requires a <= b && |b| < |a| + k
    ensures x + a <= x + b && |x + b| < |x + a| + k
  {
    assert (x + b)[..|x + a|] == x + b[..|a|];
  }

  /** The brick collectors skip no record. */
  lemma AllSent(kind: Kind, records: seq<Record>, ts: Timestamp)
    requires kind != ProcessKind && AllComplete(kind, records)
    ensures |Collect(kind, records, ts)| == |records| * |KeysOf(kind)|
  {
    NoneSkipped(Entries(kind, records));
  }

  lemma {:induction false} NoneSkipped(entries: seq<Entry>)
    requires forall i :: 0 <= i < |entries| ==> entries[i].prefix.Some?
    ensures SentCount(entries) == |entries|
    decreases |entries|
  {
    if entries != [] {
      assert forall i :: 0 <= i < |entries| - 1 ==> entries[1..][i] == entries[i + 1];
      NoneSkipped(entries[1..]);
    }
  }

  /** Emitting two runs of records is emitting each in turn. */
  lemma {:induction false} EmitAppend(a: seq<Entry>, b: seq<Entry>, keys: seq<string>, ts: Timestamp)
    requires Ready(a, keys) && Ready(b, keys)
    ensures Ready(a + b, keys)
    ensures Emit(a + b, keys, ts) == Emit(a, keys, ts) + Emit(b, keys, ts)
    decreases |a|
  {
    assert Ready(a + b, keys) by {
      forall i | 0 <= i < |a + b|
        ensures (a + b)[i].prefix.Some? ==> HasFields((a + b)[i].rec, keys)
      {
        if i < |a| {
          assert (a + b)[i] == a[i];
        } else {
          assert (a + b)[i] == b[i - |a|];
        }
      }
    }
    if a == [] {
      assert a + b == b;
    } else {
      assert (a + b)[0] == a[0];
      assert (a + b)[1..] == a[1..] + b;
      ReadyTail(a, keys);
      EmitAppend(a[1..], b, keys, ts);
      var s := if a[0].prefix.Some? then Project(a[0].prefix.value, a[0].rec, keys, ts) else [];
      assert s + (Emit(a[1..], keys, ts) + Emit(b, keys, ts))
          == (s + Emit(a[1..], keys, ts)) + Emit(b, keys, ts);
    }
  }

  /** The output around one record that is not skipped: the blocks before
      it, its own block, the blocks after it. */
  lemma EmitSplit(entries: seq<Entry>, keys: seq<string>, ts: Timestamp, i: nat)
    requires Ready(entries, keys) && i < |entries| && entries[i].prefix.Some?
    ensures Ready(entries[..i], keys) && Ready(entries[i + 1..], keys) && HasFields(entries[i].rec, keys)
    ensures Emit(entries, keys, ts)
         == Emit(entries[..i], keys, ts)
          + Project(entries[i].prefix.value, entries[i].rec, keys, ts)
          + Emit(entries[i + 1..], keys, ts)
  {
    assert Ready(entries[..i], keys) by {
      forall t | 0 <= t < i ensures entries[..i][t].prefix.Some? ==> HasFields(entries[..i][t].rec, keys) {
        assert entries[..i][t] == entries[t];
      }
    }
    assert Ready(entries[i..], keys) by {
      forall t | 0 <= t < |entries| - i
        ensures entries[i..][t].prefix.Some? ==> HasFields(entries[i..][t].rec, keys)
      {
        assert entries[i..][t] == entries[i + t];
      }
    }
    assert entries == entries[..i] + entries[i..];
    EmitAppend(entries[..i], entries[i..], keys, ts);
    assert entries[i..][0] == entries[i] && entries[i..][1..] == entries[i + 1..];
    ReadyTail(entries[i..], keys);
  }

  /** When no record is skipped, sample `j` of block `i` is metric name `j`
      of record `i`: key = the record's prefix followed by the name, value =
      that field of the record. */
  lemma EmitAt(entries: seq<Entry>, keys: seq<string>, ts: Timestamp, i: nat, j: nat)
    requires Ready(entries, keys)
    requires forall t :: 0 <= t < |entries| ==> entries[t].prefix.Some?
    requires i < |entries| && j < |keys|
    ensures keys[j] in entries[i].rec
    ensures i * |keys| + j < |Emit(entries, keys, ts)|
    ensures Emit(entries, keys, ts)[i * |keys| + j]
         == Sample(entries[i].prefix.value + keys[j], entries[i].rec[keys[j]], ts)
  {
    EmitSplit(entries, keys, ts, i);
    var before := entries[..i];
    assert forall t :: 0 <= t < |before| ==> before[t] == entries[t];
    NoneSkipped(before);
    var pre := Emit(before, keys, ts);
    assert |pre| == i * |keys|;
    var block := Project(entries[i].prefix.value, entries[i].rec, keys, ts);
    ConcatAt(pre, block, Emit(entries[i + 1..], keys, ts), j);
  }

  /** Element `j` of the middle run of three. */
  lemma ConcatAt(pre: seq<Sample>, mid: seq<Sample>, post: seq<Sample>, j: nat)
    requires j < |mid|
    ensures |pre| + j < |pre + mid + post| && (pre + mid + post)[|pre| + j] == mid[j]
  {
  }

  /** Sample `j` of the block of brick `i` sent by `local_diskstats_metrics`:
      key `.diskstats.<volume>.<node_id>.<brick>.` followed by metric name
      `j`, value that field of the record. */
  lemma DiskstatsAt(records: seq<Record>, ts: Timestamp, i: nat, j: nat)
    requires AllComplete(DiskstatsKind, records)
    requires i < |records| && j < |DiskstatsKeys|
    ensures "volume" in records[i] && "node_id" in records[i] && "brick" in records[i]
    ensures DiskstatsKeys[j] in records[i]
    ensures Diskstats(records, ts).missing.None?
    ensures i * 11 + j < |Diskstats(records, ts).sent|
    ensures Diskstats(records, ts).sent[i * 11 + j]
         == Sample(".diskstats." + records[i]["volume"] + "." + records[i]["node_id"] + "."
                   + records[i]["brick"] + "." + DiskstatsKeys[j],
                   records[i][DiskstatsKeys[j]], ts)
  {
    var entries := Entries(DiskstatsKind, records);
    var rec := records[i];
    assert Complete(DiskstatsKind, rec);
    assert PrefixFields(DiskstatsKind, rec)[0] == "volume";
    assert PrefixFields(DiskstatsKind, rec)[1] == "node_id";
    assert PrefixFields(DiskstatsKind, rec)[2] == "brick";
    EmitAt(entries, DiskstatsKeys, ts, i, j);
  }

  /** Sample `j` of the block of brick `i` sent by
      `local_utilization_metrics`: key
      `.utilization.<volume>.<node_id>.<brick>.` followed by metric name `j`,
      value that field of the record. */
  lemma UtilizationAt(records: seq<Record>, ts: Timestamp, i: nat, j: nat)
    requires AllComplete(UtilizationKind, records)
    requires i < |records| && j < |UtilizationKeys|
    ensures "volume" in records[i] && "node_id" in records[i] && "brick" in records[i]
    ensures UtilizationKeys[j] in records[i]
    ensures Utilization(records, ts).missing.None?
    ensures i * 7 + j < |Utilization(records, ts).sent|
    ensures Utilization(records, ts).sent[i * 7 + j]
         == Sample(".utilization." + records[i]["volume"] + "." + records[i]["node_id"] + "."
                   + records[i]["brick"] + "." + UtilizationKeys[j],
                   records[i][UtilizationKeys[j]], ts)
  {
    var entries := Entries(UtilizationKind, records);
    var rec := records[i];
    assert Complete(UtilizationKind, rec);
    assert PrefixFields(UtilizationKind, rec)[0] == "volume";
    assert PrefixFields(UtilizationKind, rec)[1] == "node_id";
    assert PrefixFields(UtilizationKind, rec)[2] == "brick";
    EmitAt(entries, UtilizationKeys, ts, i, j);
  }

  /** Collecting over two groups of records is collecting each in turn. */
  lemma CollectAppend(kind: Kind, a: seq<Record>, b: seq<Record>, ts: Timestamp)
    requires AllComplete(kind, a) && AllComplete(kind, b)
    ensures AllComplete(kind, a + b)
    ensures Collect(kind, a + b, ts) == Collect(kind, a, ts) + Collect(kind, b, ts)
  {
    assert AllComplete(kind, a + b) by {
      forall i | 0 <= i < |a + b| ensures Complete(kind, (a + b)[i]) {
        if i < |a| {
          assert (a + b)[i] == a[i];
        } else {
          assert (a + b)[i] == b[i - |a|];
        }
      }
    }
    assert Entries(kind, a + b) == Entries(kind, a) + Entries(kind, b);
    EmitAppend(Entries(kind, a), Entries(kind, b), KeysOf(kind), ts);
  }

  /** A process record that is neither glusterd nor glusterfsd (including
      one without a name) sends nothing. */
  lemma OtherProcessesSkipped(rec: Record, ts: Timestamp)
    requires NameOf(rec) != "glusterd" && NameOf(rec) != "glusterfsd"
    ensures Processes([rec], ts) == CollectOutcome([], None)
  {
    assert Complete(ProcessKind, rec);
    assert AllComplete(ProcessKind, [rec]);
    CollectUntilAgrees(ProcessKind, [rec], ts);
    assert Entries(ProcessKind, [rec])[0].prefix.None?;
  }

  /** A glusterd record sends its five process metrics under
      `.ps.<node_id>.glusterd.`. */
  lemma GlusterdBlock(rec: Record, ts: Timestamp)
    requires NameOf(rec) == "glusterd"
    requires "node_id" in rec && HasFields(rec, ProcessKeys)
    ensures var r := Processes([rec], ts).sent;
      && Processes([rec], ts).missing.None?
      && |r| == |ProcessKeys|
      && forall j :: 0 <= j < |ProcessKeys| ==>
           r[j].key == ".ps." + rec["node_id"] + ".glusterd." + ProcessKeys[j] && r[j].value == rec[ProcessKeys[j]]
  {
    assert Complete(ProcessKind, rec);
    assert AllComplete(ProcessKind, [rec]);
    CollectUntilAgrees(ProcessKind, [rec], ts);
    var e := Entries(ProcessKind, [rec]);
    assert e == [Entry(Some(".ps." + rec["node_id"] + ".glusterd."), rec)];
    assert Emit(e, ProcessKeys, ts) == Project(".ps." + rec["node_id"] + ".glusterd.", rec, ProcessKeys, ts) + [];
  }

  /** A glusterfsd record sends its five process metrics under
      `.ps.<volname>.<node_id>.<brick_path>.glusterfsd.`. */
  lemma GlusterfsdBlock(rec: Record, ts: Timestamp)
    requires NameOf(rec) == "glusterfsd"
    requires "volname" in rec && "node_id" in rec && "brick_path" in rec && HasFields(rec, ProcessKeys)
    ensures var r := Processes([rec], ts).sent;
      && Processes([rec], ts).missing.None?
      && |r| == |ProcessKeys|
      && forall j :: 0 <= j < |ProcessKeys| ==>
           && r[j].key == ".ps." + rec["volname"] + "." + rec["node_id"] + "." + rec["brick_path"]
                          + ".glusterfsd." + ProcessKeys[j]
           && r[j].value == rec[ProcessKeys[j]]
  {
    assert Complete(ProcessKind, rec);
    assert AllComplete(ProcessKind, [rec]);
    CollectUntilAgrees(ProcessKind, [rec], ts);
    var p := ".ps." + rec["volname"] + "." + rec["node_id"] + "." + rec["brick_path"] + ".glusterfsd.";
    var e := Entries(ProcessKind, [rec]);
    assert e == [Entry(Some(p), rec)];
    assert Emit(e, ProcessKeys, ts) == Project(p, rec, ProcessKeys, ts) + [];
  }

  /** No element repeats. */
  predicate Distinct(s: seq<string>) {
    forall a, b :: 0 <= a < b < |s| ==> s[a] != s[b]
  }

  /** No metric name repeats within a key list. */
  lemma KeyListsDistinct(kind: Kind)
    ensures Distinct(KeysOf(kind))
  {
  }

  /** Within the block a collector sends for one record no two samples
      share a key, because no metric name of its list repeats; this holds
      as well for the part sent before a `KeyError`. */
  lemma BlockKeysDistinct(kind: Kind, rec: Record, ts: Timestamp)
    ensures var r := RecordBlock(kind, rec, ts).sent;
      forall a, b :: 0 <= a < b < |r| ==> r[a].key != r[b].key
  {
    var f := FirstMissing(rec, PrefixFields(kind, rec));
    if f.None? {
      var p := KeyPrefix(kind, rec);
      if p.Some? {
        assert RecordBlock(kind, rec, ts) == ProjectUntil(p.value, rec, KeysOf(kind), ts);
        KeyListsDistinct(kind);
        ProjectUntilKeysDistinct(p.value, rec, KeysOf(kind), ts);
      } else {
        assert RecordBlock(kind, rec, ts).sent == [];
      }
    } else {
      assert RecordBlock(kind, rec, ts).sent == [];
    }
  }

  /** The names sent so far are distinct, so are their keys. */
  lemma ProjectUntilKeysDistinct(prefix: string, rec: Record, keys: seq<string>, ts: Timestamp)
    requires Distinct(keys)
    ensures var r := ProjectUntil(prefix, rec, keys, ts).sent;
      forall a, b :: 0 <= a < b < |r| ==> r[a].key != r[b].key
  {
    var r := ProjectUntil(prefix, rec, keys, ts).sent;
    forall a, b | 0 <= a < b < |r| ensures r[a].key != r[b].key {
      assert (prefix + keys[a])[|prefix|..] == keys[a];
      assert (prefix + keys[b])[|prefix|..] == keys[b];
    }
  }

  /** Within one block no two samples share a key when no metric name
      repeats. */
  lemma ProjectKeysDistinct(prefix: string, rec: Record, keys: seq<string>, ts: Timestamp)
    requires HasFields(rec, keys) && Distinct(keys)
    ensures var r := Project(prefix, rec, keys, ts);
      forall a, b :: 0 <= a < b < |r| ==> r[a].key != r[b].key
  {
    var r := Project(prefix, rec, keys, ts);
    forall a, b | 0 <= a < b < |r| ensures r[a].key != r[b].key {
      assert (prefix + keys[a])[|prefix|..] == keys[a];
      assert (prefix + keys[b])[|prefix|..] == keys[b];
    }
  }
}
