/** Names and shapes shared by every collector: the sample triple handed to
    the Graphite client, the registry of collector names and the fixed
    metric-name lists of the shaping collectors. */
module Metrics {

  /** Seconds since the epoch as taken by `time.time()`; only ever copied. */
  type Timestamp = real

  /** One `g.send(key, value, timestamp)` call. A value is treated as
      opaque text; which Python type it had is not modelled. */
  datatype Sample = Sample(key: string, value: string, timestamp: Timestamp)

  /** Every sample carries the one timestamp `ts`. */
  predicate AllAt(samples: seq<Sample>, ts: Timestamp) {
    forall i :: 0 <= i < |samples| ==> samples[i].timestamp == ts
  }

  /** Two runs under one timestamp sent one after the other. */
  lemma AllAtAppend(a: seq<Sample>, b: seq<Sample>, ts: Timestamp)
    requires AllAt(a, ts) && AllAt(b, ts)
    ensures AllAt(a + b, ts)
  {
    forall i | 0 <= i < |a + b| ensures (a + b)[i].timestamp == ts {
      if i >= |a| {
        assert (a + b)[i] == b[i - |a|];
      }
    }
  }

  /** Concatenation of runs is associative. */
  lemma ConcatAssoc<T>(a: seq<T>, b: seq<T>, c: seq<T>)
    ensures a + (b + c) == (a + b) + c
  {
  }

  /** `AVAILABLE_METRICS`, in registry order. */
  const AvailableMetrics: seq<string> :=
    ["local_io", "local_utilization", "local_diskstats", "local_process"]

  /** `metric_keys_diskstats`. */
  const DiskstatsKeys: seq<string> := [
    "reads_completed", "reads_merged", "sectors_read", "time_spent_reading",
    "writes_completed", "writes_merged", "sectors_written", "time_spent_writing",
    "ios_currently_in_progress", "time_spent_doing_ios", "weighted_time_spent_doing_ios"
  ]

  /** `metric_keys_utilization`. */
  const UtilizationKeys: seq<string> := [
    "block_size", "blocks_total", "blocks_free", "blocks_avail",
    "inodes_total", "inodes_free", "inodes_avail"
  ]

  /** `metric_keys_processes`. */
  const ProcessKeys: seq<string> := [
    "percentage_cpu", "percentage_memory", "resident_memory", "virtual_memory",
    "elapsed_time_sec"
  ]
}
