/** The configuration store: the `Config` object of gmetrics.py as an
    immutable record threaded through `Reload`. Reading the INI file and
    `os.lstat` are replaced by a `FileSnapshot` the caller supplies. */
module Config {
  import opened Wrappers
  import opened PyStr
  import opened Metrics

  /** The values `Config.get` can hand back. */
  datatype Value = NoneValue | Str(text: string) | StrList(items: seq<string>) | Int(n: int)

  /** Python's `not v`. */
  predicate Falsy(v: Value) {
    match v
    case NoneValue => true
    case Str(t) => t == []
    case StrList(items) => items == []
    case Int(n) => n == 0
  }

  /** A cast in `TYPECAST_MAP` raised: `int()` rejected the option's text. */
  datatype ConfigError = ValueError(option: string, text: string)

  /** `DEFAULT_CONFIG`, used only when no configuration file was given. */
  const DefaultConfig: map<string, Value> :=
    map["interval" := Int(15), "enabled_metrics" := StrList(AvailableMetrics)]

  /** One read of the configuration file: the options of its `[settings]`
      section and its modification time. */
  datatype FileSnapshot = FileSnapshot(settings: map<string, string>, mtime: int)

  /** `configFile` is the path given on the command line, `conf` the parsed
      settings, `prevMtime` the modification time of the last load. */
  datatype Config = Config(configFile: Option<string>, conf: Option<map<string, string>>, prevMtime: Option<int>)

  /** `to_strlist`: strip, then split on commas and strip every piece; a
      blank text is the empty list. */
  function ToStrList(value: string): (r: seq<string>)
    ensures r == [] <==> AllSpace(value)
    ensures r != [] ==> |r| == multiset(Strip(value))[','] + 1
    ensures forall i :: 0 <= i < |r| ==> Stripped(r[i]) && ',' !in r[i]
  {
    var v := Strip(value);
    if v == [] then
      []
    else
      SplitCount(v, ',');
      StripEach(Split(v, ','))
  }

  /** Strips every piece of a comma split. */
  function StripEach(parts: seq<string>): (r: seq<string>)
    requires forall i :: 0 <= i < |parts| ==> ',' !in parts[i]
    ensures |r| == |parts|
    ensures forall i :: 0 <= i < |r| ==> r[i] == Strip(parts[i]) && ',' !in r[i]
  {
    seq(|parts|, i requires 0 <= i < |parts| => StripKeepsOut(parts[i], ','); Strip(parts[i]))
  }

  /** Joining clean list items with commas and reading them back with
      `to_strlist` returns the items. */
  lemma {:induction false} ToStrListJoin(items: seq<string>)
    requires |items| >= 1 && items != [""]
    requires forall i :: 0 <= i < |items| ==> Stripped(items[i]) && ',' !in items[i]
    ensures ToStrList(Join(items, ',')) == items
  {
    var j := Join(items, ',');
    JoinStripped(items, ',');
    JoinNotBlank(items);
    assert Strip(j) == j;
    SplitJoin(items, ',');
    assert ToStrList(j) == StripEach(items);
    assert StripEach(items) == items;
  }

  /** `to_strlist` of comma-separated fields returns every field
      stripped, whatever whitespace surrounds it. */
  lemma ToStrListFields(fields: seq<string>)
    requires |fields| >= 1
    requires forall i :: 0 <= i < |fields| ==> ',' !in fields[i]
    requires !AllSpace(Join(fields, ','))
    ensures var r := ToStrList(Join(fields, ','));
      |r| == |fields| && forall i :: 0 <= i < |fields| ==> r[i] == Strip(fields[i])
  {
    if |fields| == 1 {
      var j := Join(fields, ',');
      StripKeepsOut(j, ',');
      SplitNoSep(Strip(j), ',');
    } else {
      ToStrListManyFields(fields);
    }
  }

  /** `ToStrListFields` when there is at least one comma. */
  lemma ToStrListManyFields(fields: seq<string>)
    requires |fields| >= 2
    requires forall i :: 0 <= i < |fields| ==> ',' !in fields[i]
    ensures var r := ToStrList(Join(fields, ','));
      |r| == |fields| && forall i :: 0 <= i < |fields| ==> r[i] == Strip(fields[i])
  {
    var t := StripEnds(fields);
    SplitStrippedFields(fields);
    var r := ToStrList(Join(fields, ','));
    assert r == StripEach(t);
    forall i | 0 <= i < |fields| ensures r[i] == Strip(fields[i]) {
      StripEndsAt(fields, i, ',');
    }
  }

  /** The comma split of the stripped join is `StripEnds` of the fields. */
  lemma SplitStrippedFields(fields: seq<string>)
    requires |fields| >= 2
    requires forall i :: 0 <= i < |fields| ==> ',' !in fields[i]
    ensures Strip(Join(fields, ',')) != []
    ensures Split(Strip(Join(fields, ',')), ',') == StripEnds(fields)
    ensures forall i :: 0 <= i < |fields| ==> ',' !in StripEnds(fields)[i]
  {
    StripEndsJoin(fields, ',');
    StripEndsKeepOut(fields, ',');
    SplitJoin(StripEnds(fields), ',');
  }

  lemma JoinNotBlank(items: seq<string>)
    requires |items| >= 1 && items != [""]
    requires forall i :: 0 <= i < |items| ==> Stripped(items[i])
    ensures !AllSpace(Join(items, ','))
  {
    var j := Join(items, ',');
    assert !AllSpace(j) by {
      if |items| == 1 {
        assert j == items[0] && j != [];
        assert !IsSpace(j[0]);
      } else {
        assert j[|items[0]|] == ',';
      }
    }
  }

  /** A separator that is not whitespace, between stripped pieces, leaves
      the joined text stripped. */
  lemma {:induction false} JoinStripped(parts: seq<string>, sep: char)
    requires |parts| >= 1 && !IsSpace(sep)
    requires forall i :: 0 <= i < |parts| ==> Stripped(parts[i])
    ensures Stripped(Join(parts, sep))
    decreases |parts|
  {
    if |parts| > 1 {
      JoinStripped(parts[1..], sep);
      var j := Join(parts, sep);
      var rest := Join(parts[1..], sep);
      assert j == parts[0] + [sep] + rest;
      if parts[0] == [] {
        assert j[0] == sep;
      } else {
        assert j[0] == parts[0][0];
      }
      if rest == [] {
        assert j[|j| - 1] == sep;
      } else {
        assert j[|j| - 1] == rest[|rest| - 1];
      }
    }
  }

  /** The cast `TYPECAST_MAP` registers for `name`, applied to `text`. */
  function Cast(name: string, text: string): (r: Result<Value, ConfigError>)
    ensures name != "interval" ==> r.Ok?
    ensures name == "interval" ==> (r.Ok? <==> ParseInt(text).Some?)
  {
    if name == "enabled_metrics" then
      Ok(StrList(ToStrList(text)))
    else if name == "interval" then
      match ParseInt(text)
      case Some(n) => Ok(Int(n))
      case None => Err(ValueError(name, text))
    else
      Ok(Str(text))
  }

  /** `Config.get(name, default)`. */
  function Get(c: Config, name: string, default: Value): (r: Result<Value, ConfigError>)
    // no file: the built-in defaults, then the caller's default
    ensures c.configFile.None? && name in DefaultConfig ==> r == Ok(DefaultConfig[name])
    ensures c.configFile.None? && name !in DefaultConfig ==> r == Ok(default)
    // a file without the option: the caller's default, never cast
    ensures c.configFile.Some? && (c.conf.None? || name !in c.conf.value) ==> r == Ok(default)
    // a file with the option: its text, cast when a cast is registered
    ensures c.configFile.Some? && c.conf.Some? && name in c.conf.value ==>
      var text := c.conf.value[name];
      && (name == "enabled_metrics" ==> r == Ok(StrList(ToStrList(text))))
      && (name == "interval" ==> r == (if ParseInt(text).Some? then Ok(Int(ParseInt(text).value)) else Err(ValueError(name, text))))
      && (name != "enabled_metrics" && name != "interval" ==> r == Ok(Str(text)))
    ensures name != "interval" ==> r.Ok?
  {
    if c.configFile.None? then
      Ok(if name in DefaultConfig then DefaultConfig[name] else default)
    else if c.conf.None? then
      Ok(default)
    else if name in c.conf.value then
      Cast(name, c.conf.value[name])
    else
      Ok(default)
  }

  /** `Config.load`: take the file's settings and remember its mtime; with
      no file, nothing happens. */
  function Load(c: Config, snap: FileSnapshot): (r: Config)
    ensures r.configFile == c.configFile
    ensures c.configFile.None? ==> r == c
    ensures c.configFile.Some? ==> r.conf == Some(snap.settings) && r.prevMtime == Some(snap.mtime)
  {
    if c.configFile.None? then c
    else c.(conf := Some(snap.settings), prevMtime := Some(snap.mtime))
  }

  /** After a load, `get` answers from the file's current settings: the
      cast of an option it sets, the caller's default for one it does not. */
  lemma LoadThenGet(c: Config, snap: FileSnapshot, name: string, default: Value)
    requires c.configFile.Some?
    ensures Get(Load(c, snap), name, default)
         == if name in snap.settings then Cast(name, snap.settings[name]) else Ok(default)
  {
  }

  /** `Config(config_file)`: load once, then forget the mtime just read. */
  function New(configFile: Option<string>, snap: FileSnapshot): (r: Config)
    ensures r.configFile == configFile && r.prevMtime.None?
    ensures configFile.Some? ==> r.conf == Some(snap.settings)
    ensures configFile.None? ==> r.conf.None?
  {
    Load(Config(configFile, None, None), snap).(prevMtime := None)
  }

  /** What a `reload()` call leaves behind and returns. */
  datatype ReloadOutcome = ReloadOutcome(config: Config, reloaded: bool)

  /** `Config.reload`: load again when nothing was recorded yet or the file
      is strictly newer than the last load. */
  function Reload(c: Config, snap: FileSnapshot): (r: ReloadOutcome)
    ensures c.configFile.None? ==> r == ReloadOutcome(c, false)
    ensures c.configFile.Some? && c.prevMtime.None? ==> r.reloaded
    ensures c.configFile.Some? && c.prevMtime.Some? ==> (r.reloaded <==> snap.mtime > c.prevMtime.value)
    ensures r.reloaded ==> r.config == c.(conf := Some(snap.settings), prevMtime := Some(snap.mtime))
    ensures !r.reloaded ==> r.config == c
  {
    if c.configFile.None? then
      ReloadOutcome(c, false)
    else if c.prevMtime.None? || snap.mtime > c.prevMtime.value then
      ReloadOutcome(Load(c, snap), true)
    else
      ReloadOutcome(c, false)
  }

  /** The first `reload()` after construction always reloads, because the
      constructor forgets the mtime it read. */
  lemma FirstReloadAlwaysReloads(path: string, initial: FileSnapshot, snap: FileSnapshot)
    ensures Reload(New(Some(path), initial), snap).reloaded
    ensures Reload(New(Some(path), initial), snap).config.conf == Some(snap.settings)
  {
  }

  /** Asking again with the same file state reports no change. */
  lemma ReloadSettles(c: Config, snap: FileSnapshot)
    ensures !Reload(Reload(c, snap).config, snap).reloaded
  {
  }

  /** The verdicts of successive `reload()` calls against the given file
      states. */
  function ReloadAll(c: Config, snaps: seq<FileSnapshot>): (r: seq<bool>)
    ensures |r| == |snaps|
    decreases |snaps|
  {
    if snaps == [] then []
    else
      var o := Reload(c, snaps[0]);
      [o.reloaded] + ReloadAll(o.config, snaps[1..])
  }

  /** Without a configuration file no call ever reloads. */
  lemma {:induction false} ReloadAllWithoutFile(c: Config, snaps: seq<FileSnapshot>)
    requires c.configFile.None?
    ensures forall i :: 0 <= i < |snaps| ==> !ReloadAll(c, snaps)[i]
    decreases |snaps|
  {
    if snaps != [] {
      ReloadAllWithoutFile(c, snaps[1..]);
    }
  }

  /** The file mtime at call `i` beats every one seen at earlier calls. */
  predicate Newest(snaps: seq<FileSnapshot>, i: int)
    requires 0 <= i < |snaps|
  {
    forall j :: 0 <= j < i ==> snaps[j].mtime < snaps[i].mtime
  }

  /** From construction on, call `i` reloads exactly when the file is
      strictly newer than at every earlier call: once per strict increase
      of the mtime, never for an unchanged or older file. */
  lemma ReloadHistory(path: string, initial: FileSnapshot, snaps: seq<FileSnapshot>)
    ensures forall i :: 0 <= i < |snaps| ==>
      (ReloadAll(New(Some(path), initial), snaps)[i] <==> Newest(snaps, i))
  {
    if snaps != [] {
      var c := New(Some(path), initial);
      var c1 := Reload(c, snaps[0]).config;
      ReloadHistoryFrom(c1, snaps[0].mtime, snaps[1..]);
      forall i | 0 < i < |snaps|
        ensures ReloadAll(c, snaps)[i] <==> Newest(snaps, i)
      {
        assert ReloadAll(c, snaps)[i] == ReloadAll(c1, snaps[1..])[i - 1];
        assert Newest(snaps, i) <==> snaps[0].mtime < snaps[i].mtime && forall j :: 0 <= j < i - 1 ==> snaps[1..][j].mtime < snaps[1..][i - 1].mtime by {
          if snaps[0].mtime < snaps[i].mtime && forall j :: 0 <= j < i - 1 ==> snaps[1..][j].mtime < snaps[1..][i - 1].mtime {
            forall j | 0 < j < i ensures snaps[j].mtime < snaps[i].mtime {
              assert snaps[j] == snaps[1..][j - 1];
            }
          }
        }
      }
    }
  }

  /** `ReloadHistory` once a load has recorded mtime `m`. */
  lemma {:induction false} ReloadHistoryFrom(c: Config, m: int, snaps: seq<FileSnapshot>)
    requires c.configFile.Some? && c.prevMtime == Some(m)
    ensures forall i :: 0 <= i < |snaps| ==>
      (ReloadAll(c, snaps)[i] <==> m < snaps[i].mtime && forall j :: 0 <= j < i ==> snaps[j].mtime < snaps[i].mtime)
    decreases |snaps|
  {
    if snaps != [] {
      var o := Reload(c, snaps[0]);
      var m' := if snaps[0].mtime > m then snaps[0].mtime else m;
      ReloadHistoryFrom(o.config, m', snaps[1..]);
      forall i | 0 < i < |snaps|
        ensures ReloadAll(c, snaps)[i] <==> m < snaps[i].mtime && forall j :: 0 <= j < i ==> snaps[j].mtime < snaps[i].mtime
      {
        assert ReloadAll(c, snaps)[i] == ReloadAll(o.config, snaps[1..])[i - 1];
        if m' < snaps[i].mtime && forall j :: 0 <= j < i - 1 ==> snaps[1..][j].mtime < snaps[1..][i - 1].mtime {
          forall j | 0 < j < i ensures snaps[j].mtime < snaps[i].mtime {
            assert snaps[j] == snaps[1..][j - 1];
          }
        }
        if m < snaps[i].mtime && forall j :: 0 <= j < i ==> snaps[j].mtime < snaps[i].mtime {
          forall j | 0 <= j < i - 1 ensures snaps[1..][j].mtime < snaps[1..][i - 1].mtime {
            assert snaps[1..][j] == snaps[j + 1];
          }
        }
      }
    }
  }
}
