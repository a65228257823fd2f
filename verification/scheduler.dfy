/** One iteration of the collection loop in `main`: reload the
    configuration when the file changed, recompute the Graphite prefix and
    the enabled collectors after a reload, pick the collectors to run and
    read the sleep interval. Running the collectors, sending, sleeping and
    the endless loop itself are outside the model. */
module Scheduler {
  import opened Wrappers
  import opened PyStr
  import opened Metrics
  import opened Config

  /** The four collection functions `globals()` can find. */
  datatype Collector = LocalIo | LocalUtilization | LocalDiskstats | LocalProcess

  /** The name a collector is enabled by: its function name without the
      `_metrics` suffix. */
  function CollectorName(c: Collector): (r: string)
    ensures r in AvailableMetrics
  {
    match c
    case LocalIo => "local_io"
    case LocalUtilization => "local_utilization"
    case LocalDiskstats => "local_diskstats"
    case LocalProcess => "local_process"
  }

  /** `globals().get(m + "_metrics", None)`: only the four collectors' names
      end in `_metrics`. */
  function Lookup(name: string): (r: Option<Collector>)
    ensures r.Some? <==> name in AvailableMetrics
    ensures r.Some? ==> CollectorName(r.value) == name
  {
    if name == "local_io" then Some(LocalIo)
    else if name == "local_utilization" then Some(LocalUtilization)
    else if name == "local_diskstats" then Some(LocalDiskstats)
    else if name == "local_process" then Some(LocalProcess)
    else None
  }

  /** Looking a collector up by its own name finds it. */
  lemma LookupName(c: Collector)
    ensures Lookup(CollectorName(c)) == Some(c)
  {
  }

  /** The `enabled_metrics` value after defaulting: `None` or an empty list
      means every collector, anything else is kept as it is, even a list of
      blank names. */
  function ResolveEnabled(v: Value): (r: seq<string>)
    requires v.NoneValue? || v.StrList?
    ensures r != []
    ensures Falsy(v) ==> r == AvailableMetrics
    ensures !Falsy(v) ==> r == v.items
  {
    if Falsy(v) then AvailableMetrics else v.items
  }

  /** The enabled list `main` computes from a configuration. */
  function Enabled(c: Config): (r: seq<string>)
    ensures r != []
  {
    var v := Get(c, "enabled_metrics", NoneValue);
    assert v.Ok?;
    ResolveEnabled(v.value)
  }

  /** What the enabled list is, in terms of the configuration file: all
      collectors without a file, without the option, or with a blank
      option; otherwise the option read with `to_strlist`. */
  lemma EnabledCases(c: Config)
    ensures c.configFile.None? ==> Enabled(c) == AvailableMetrics
    ensures c.configFile.Some? && (c.conf.None? || "enabled_metrics" !in c.conf.value) ==>
      Enabled(c) == AvailableMetrics
    ensures c.configFile.Some? && c.conf.Some? && "enabled_metrics" in c.conf.value ==>
      var text := c.conf.value["enabled_metrics"];
      && (AllSpace(text) ==> Enabled(c) == AvailableMetrics)
      && (!AllSpace(text) ==> Enabled(c) == ToStrList(text))
  {
  }

  /** The enabled names that are collectors, in order and with repeats. */
  function Known(enabled: seq<string>): (r: seq<string>)
    ensures |r| <= |enabled|
    ensures forall i :: 0 <= i < |r| ==> r[i] in AvailableMetrics
    decreases |enabled|
  {
    if enabled == [] then []
    else if enabled[0] in AvailableMetrics then [enabled[0]] + Known(enabled[1..])
    else Known(enabled[1..])
  }

  /** The collectors one pass of the `for m in enabled_metrics` loop calls:
      unknown names are skipped silently, repeats call again. */
  function Dispatch(enabled: seq<string>): (r: seq<Collector>)
    ensures |r| == |Known(enabled)|
    ensures forall i :: 0 <= i < |r| ==> CollectorName(r[i]) == Known(enabled)[i]
    decreases |enabled|
  {
    if enabled == [] then
      []
    else
      var rest := Dispatch(enabled[1..]);
      match Lookup(enabled[0])
      case Some(c) => [c] + rest
      case None => rest
  }

  /** Dispatching over two lists is dispatching each in turn. */
  lemma {:induction false} DispatchAppend(a: seq<string>, b: seq<string>)
    ensures Dispatch(a + b) == Dispatch(a) + Dispatch(b)
    decreases |a|
  {
    if a == [] {
      assert a + b == b;
    } else {
      assert (a + b)[0] == a[0];
      assert (a + b)[1..] == a[1..] + b;
      DispatchAppend(a[1..], b);
    }
  }

  /** Each collector runs once per occurrence of its name, and only then. */
  lemma {:induction false} DispatchCounts(enabled: seq<string>, c: Collector)
    ensures multiset(Dispatch(enabled))[c] == multiset(enabled)[CollectorName(c)]
    decreases |enabled|
  {
    if enabled != [] {
      var name := enabled[0];
      var rest := Dispatch(enabled[1..]);
      DispatchCounts(enabled[1..], c);
      assert enabled == [name] + enabled[1..];
      assert multiset(enabled)[CollectorName(c)]
          == multiset([name])[CollectorName(c)] + multiset(enabled[1..])[CollectorName(c)];
      var found := Lookup(name);
      if found.Some? {
        assert Dispatch(enabled) == [found.value] + rest;
        assert multiset(Dispatch(enabled))[c] == multiset([found.value])[c] + multiset(rest)[c];
        NameDecides(found.value, c);
      } else {
        assert Dispatch(enabled) == rest;
        assert name != CollectorName(c);
      }
    }
  }

  /** Different collectors have different names. */
  lemma NameDecides(c: Collector, d: Collector)
    ensures CollectorName(c) == CollectorName(d) <==> c == d
  {
    LookupName(c);
    LookupName(d);
  }

  /** With every collector enabled, each runs once, in registry order. */
  lemma DispatchAll()
    ensures Dispatch(AvailableMetrics) == [LocalIo, LocalUtilization, LocalDiskstats, LocalProcess]
  {
    var a := AvailableMetrics;
    assert a[1..][1..][1..][1..] == [];
  }

  /** `'.'.join([prefix, hostname, group])`. */
  function NewPrefix(c: Config, hostname: string): (r: string)
    ensures var p := Get(c, "prefix", Str("gmetrics"));
      var g := Get(c, "group", Str("gluster"));
      && p.Ok? && p.value.Str? && g.Ok? && g.value.Str?
      && r == p.value.text + "." + hostname + "." + g.value.text
  {
    var p := Get(c, "prefix", Str("gmetrics")).value.text;
    var g := Get(c, "group", Str("gluster")).value.text;
    JoinThree(p, hostname, g, '.');
    Join([p, hostname, g], '.')
  }

  /** Joining three parts. */
  lemma JoinThree(a: string, b: string, c: string, sep: char)
    ensures Join([a, b, c], sep) == a + [sep] + b + [sep] + c
  {
    assert [b, c][1..] == [c];
    assert Join([b, c], sep) == b + [sep] + c;
    assert [a, b, c][1..] == [b, c];
    assert Join([a, b, c], sep) == a + [sep] + (b + [sep] + c);
    assert a + [sep] + (b + [sep] + c) == a + [sep] + b + [sep] + c;
  }

  /** The option's text when the file sets it, otherwise `default`. */
  function OptionOr(c: Config, name: string, default: string): string {
    if c.configFile.Some? && c.conf.Some? && name in c.conf.value then c.conf.value[name] else default
  }

  /** The prefix in terms of the file: `gmetrics` and `gluster` unless the
      file sets `prefix` or `group`. */
  lemma NewPrefixCases(c: Config, hostname: string)
    ensures NewPrefix(c, hostname)
         == OptionOr(c, "prefix", "gmetrics") + "." + hostname + "." + OptionOr(c, "group", "gluster")
  {
  }

  /** The three parts come back from the prefix when none holds a dot. */
  lemma NewPrefixSplits(c: Config, hostname: string)
    requires '.' !in OptionOr(c, "prefix", "gmetrics")
    requires '.' !in hostname
    requires '.' !in OptionOr(c, "group", "gluster")
    ensures Split(NewPrefix(c, hostname), '.')
         == [OptionOr(c, "prefix", "gmetrics"), hostname, OptionOr(c, "group", "gluster")]
  {
    var p := OptionOr(c, "prefix", "gmetrics");
    var g := OptionOr(c, "group", "gluster");
    NewPrefixCases(c, hostname);
    var parts := [p, hostname, g];
    JoinThree(p, hostname, g, '.');
    SplitJoin(parts, '.');
  }

  /** What the loop keeps between iterations. `prefix` is `None` while the
      Graphite client still uses the prefix it was created with. */
  datatype State = State(config: Config, enabled: seq<string>, prefix: Option<string>)

  /** Why `main` ends: `int()` rejected `interval`, or `time.sleep` refused
      a negative interval. */
  datatype StepError = BadInterval(error: ConfigError) | NegativeInterval(seconds: int)

  /** One iteration: whether the file was reloaded, the state after the
      reload, the collectors run in order, and the sleep that follows. */
  datatype Cycle = Cycle(state: State, reloaded: bool, run: seq<Collector>, sleep: Result<nat, StepError>)

  /** The state right before the loop: the constructor's load, the enabled
      list from it, and the prefix the client was created with. */
  function Startup(configFile: Option<string>, snap: FileSnapshot): (r: State)
    ensures r.config == New(configFile, snap)
    ensures r.enabled != []
    ensures r.enabled == Enabled(r.config)
    ensures r.prefix.None?
  {
    var c := New(configFile, snap);
    State(c, Enabled(c), None)
  }

  /** `time.sleep(conf.get("interval", 15))`. */
  function Interval(c: Config): (r: Result<nat, StepError>)
    ensures c.configFile.None? ==> r == Ok(15)
    ensures c.configFile.Some? && (c.conf.None? || "interval" !in c.conf.value) ==> r == Ok(15)
    ensures c.configFile.Some? && c.conf.Some? && "interval" in c.conf.value ==>
      var text := c.conf.value["interval"];
      && (ParseInt(text).None? ==> r == Err(BadInterval(ValueError("interval", text))))
      && (ParseInt(text).Some? && ParseInt(text).value < 0 ==> r == Err(NegativeInterval(ParseInt(text).value)))
      && (ParseInt(text).Some? && ParseInt(text).value >= 0 ==> r == Ok(ParseInt(text).value))
  {
    match Get(c, "interval", Int(15))
    case Err(e) => Err(BadInterval(e))
    case Ok(v) =>
      var n := if v.Int? then v.n else 15;
      if n >= 0 then Ok(n) else Err(NegativeInterval(n))
  }

  /** One pass of the `while True` body against the file as it is now. */
  function Step(s: State, snap: FileSnapshot, hostname: string): (r: Cycle)
    ensures r.reloaded || s.enabled != [] ==> r.state.enabled != []
    ensures r.reloaded == Reload(s.config, snap).reloaded
    ensures r.state.config == Reload(s.config, snap).config
    ensures r.reloaded ==> r.state.enabled == Enabled(r.state.config)
    ensures r.reloaded ==> r.state.prefix == Some(NewPrefix(r.state.config, hostname))
    ensures !r.reloaded ==> r.state == s
    ensures r.run == Dispatch(r.state.enabled)
    ensures r.sleep == Interval(r.state.config)
  {
    var o := Reload(s.config, snap);
    var next :=
      if o.reloaded then State(o.config, Enabled(o.config), Some(NewPrefix(o.config, hostname)))
      else s;
    Cycle(next, o.reloaded, Dispatch(next.enabled), Interval(next.config))
  }

  /** The iterations of the loop against successive file states, stopping
      after the first one whose sleep fails. */
  function Run(s: State, snaps: seq<FileSnapshot>, hostname: string): (r: seq<Cycle>)
    ensures |r| <= |snaps|
    ensures snaps != [] ==> r != [] && r[0] == Step(s, snaps[0], hostname)
    ensures forall i :: 0 < i < |r| ==> r[i] == Step(r[i - 1].state, snaps[i], hostname)
    ensures forall i :: 0 <= i < |r| - 1 ==> r[i].sleep.Ok?
    ensures |r| < |snaps| ==> r != [] && r[|r| - 1].sleep.Err?
    decreases |snaps|
  {
    if snaps == [] then
      []
    else
      var c := Step(s, snaps[0], hostname);
      if c.sleep.Err? then
        [c]
      else
        var rest := Run(c.state, snaps[1..], hostname);
        var r := [c] + rest;
        assert forall i :: 0 < i < |r| ==> r[i] == rest[i - 1];
        r
  }

  /** Without a configuration file every iteration runs all four
      collectors, sleeps 15 seconds and never reloads. */
  lemma {:induction false} RunWithoutFile(snaps: seq<FileSnapshot>, hostname: string, initial: FileSnapshot)
    ensures var r := Run(Startup(None, initial), snaps, hostname);
      && |r| == |snaps|
      && forall i :: 0 <= i < |r| ==>
           && !r[i].reloaded
           && r[i].run == [LocalIo, LocalUtilization, LocalDiskstats, LocalProcess]
           && r[i].sleep == Ok(15)
  {
    var s := Startup(None, initial);
    EnabledCases(s.config);
    assert s.enabled == AvailableMetrics && s.config.configFile.None?;
    RunFixed(s, snaps, hostname);
  }

  /** A state without a file is a fixed point of `Step`. */
  lemma StepFixed(s: State, snap: FileSnapshot, hostname: string)
    requires s.enabled == AvailableMetrics && s.config.configFile.None?
    ensures Step(s, snap, hostname) == Cycle(s, false, [LocalIo, LocalUtilization, LocalDiskstats, LocalProcess], Ok(15))
  {
    DispatchAll();
  }

  /** Every iteration from a state without a file is the same. */
  lemma {:induction false} RunFixed(s: State, snaps: seq<FileSnapshot>, hostname: string)
    requires s.enabled == AvailableMetrics && s.config.configFile.None?
    ensures var r := Run(s, snaps, hostname);
      && |r| == |snaps|
      && forall i :: 0 <= i < |r| ==>
           r[i] == Cycle(s, false, [LocalIo, LocalUtilization, LocalDiskstats, LocalProcess], Ok(15))
    decreases |snaps|
  {
    if snaps != [] {
      StepFixed(s, snaps[0], hostname);
      RunHead(s, snaps, hostname);
      RunFixed(s, snaps[1..], hostname);
      var r := Run(s, snaps, hostname);
      forall i | 0 < i < |r|
        ensures r[i] == Cycle(s, false, [LocalIo, LocalUtilization, LocalDiskstats, LocalProcess], Ok(15))
      {
        assert r[i] == r[1..][i - 1];
      }
    }
  }

  /** The first iteration after startup with a file always reloads and
      switches the client to the configured prefix. */
  lemma FirstStepReloads(path: string, initial: FileSnapshot, snap: FileSnapshot, hostname: string)
    ensures var c := Step(Startup(Some(path), initial), snap, hostname);
      && c.reloaded
      && c.state.config.conf == Some(snap.settings)
      && c.state.prefix == Some(NewPrefix(c.state.config, hostname))
  {
    FirstReloadAlwaysReloads(path, initial, snap);
  }

  /** The first iteration of a run, and what follows it. */
  lemma RunHead(s: State, snaps: seq<FileSnapshot>, hostname: string)
    requires snaps != []
    ensures var c := Step(s, snaps[0], hostname);
      var r := Run(s, snaps, hostname);
      && r != [] && r[0] == c
      && (c.sleep.Err? ==> |r| == 1)
      && (c.sleep.Ok? ==> r[1..] == Run(c.state, snaps[1..], hostname))
  {
    var c := Step(s, snaps[0], hostname);
    if c.sleep.Ok? {
      assert Run(s, snaps, hostname) == [c] + Run(c.state, snaps[1..], hostname);
    }
  }

  /** The iterations reload exactly when `reload()` would on its own. */
  lemma {:induction false} RunReloads(s: State, snaps: seq<FileSnapshot>, hostname: string)
    ensures var r := Run(s, snaps, hostname);
      forall i :: 0 <= i < |r| ==> r[i].reloaded == ReloadAll(s.config, snaps)[i]
    decreases |snaps|
  {
    if snaps != [] {
      var c := Step(s, snaps[0], hostname);
      var r := Run(s, snaps, hostname);
      var verdicts := ReloadAll(s.config, snaps);
      RunHead(s, snaps, hostname);
      assert verdicts == [c.reloaded] + ReloadAll(c.state.config, snaps[1..]);
      if c.sleep.Ok? {
        RunReloads(c.state, snaps[1..], hostname);
        forall i | 0 < i < |r| ensures r[i].reloaded == verdicts[i] {
          assert r[i] == r[1..][i - 1];
        }
      }
    }
  }
}
