/** The line parser of `local_io_metrics`: one pass over the diagnostic dump
    files the Gluster processes write on SIGUSR2. Sending the signal,
    sleeping, globbing and reading are outside the model; a dump file
    arrives as its name and its lines (each with its trailing newline, as
    Python's file iteration yields them).

    The loop body is split in two: `Lex` runs the tests that depend on the
    line alone, in source order, and `ParseKinds` is the state machine over
    `proc_id` that consumes the classified lines. */
module DumpParser {
  import opened Wrappers
  import opened PyStr
  import opened Metrics

  /** The process id in effect before any marker line. */
  const NullId: string := "(null)"
  /** A line containing this ends the file. */
  const TerminatorMark: string := "# glusterd"
  const BrickMarker: string := "### BrickName: "
  const MountMarker: string := "### MountName: "

  /** A Python exception escaped the pass: `IndexError` at line `line`
      (0-based) of the file being read, after `sent` had been sent. */
  datatype Raised = IndexError(line: nat, sent: seq<Sample>)

  /** `line.split(":")[1].strip()`: the stripped text between the first and
      the second colon. */
  function ColonField(line: string): (r: string)
    requires ':' in line
    ensures Stripped(r) && ':' !in r
  {
    var parts := Split(line, ':');
    StripKeepsOut(parts[1], ':');
    Strip(parts[1])
  }

  /** `ColonField` is the text between the first two colons whatever
      follows the second one. */
  lemma {:induction false} ColonFieldBetween(pre: string, field: string, post: string)
    requires ':' !in pre && ':' !in field
    requires post == [] || post[0] == ':'
    ensures ':' in pre + [':'] + field + post
    ensures ColonField(pre + [':'] + field + post) == Strip(field)
  {
    var line := pre + [':'] + field + post;
    var after := field + post;
    assert line == pre + [':'] + after;
    assert line[|pre|] == ':';
    SplitAfterPiece(pre, ':', after);
    var tail := Split(after, ':');
    assert Split(line, ':') == [pre] + tail;
    if post == [] {
      assert after == field;
      SplitNoSep(field, ':');
    } else {
      assert after == field + [':'] + post[1..];
      SplitAfterPiece(field, ':', post[1..]);
    }
    assert tail[0] == field;
    assert Split(line, ':')[1] == field;
  }

  /** A marker line always has a colon to split on. */
  lemma MarkerHasColon(line: string, marker: string)
    requires marker == BrickMarker || marker == MountMarker
    requires Contains(line, marker)
    ensures ':' in line
  {
    assert marker[13] == ':';
    ContainsChar(line, marker, ':');
  }

  /** What the tail of the loop body makes of a line: skipped as a comment,
      sent as `<name> <value>`, or raising `IndexError`. */
  datatype Body = Comment | Metric(name: string, value: string) | Malformed

  /** A line as the loop body's tests see it before consulting `proc_id`. */
  datatype LineKind =
    | Terminator
    | BrickName(id: string)
    | MountName(id: string, body: Body)  // `body` applies once the id is resolved
    | Other(body: Body)

  /** The last three tests of the loop body: `line[0]` raises on an empty
      line, a leading `#` skips, and `line.split(" ")[1]` raises when the
      line has no space. */
  function BodyOf(line: string): (r: Body)
    ensures r.Metric? <==> line != [] && line[0] != '#' && ' ' in line
    ensures r == Comment <==> line != [] && line[0] == '#'
    ensures r.Metric? ==> ' ' !in r.name && Stripped(r.value)
  {
    if line == [] then
      Malformed
    else if line[0] == '#' then
      Comment
    else
      var data := Split(line, ' ');
      if |data| < 2 then Malformed else Metric(data[0], Strip(data[1]))
  }

  /** The name is the text before the first space and the value the
      stripped text between the first and the second space. */
  lemma {:induction false} MetricFieldsBetween(name: string, value: string, post: string)
    requires name == [] || name[0] != '#'
    requires ' ' !in name && ' ' !in value
    requires post == [] || post[0] == ' '
    ensures BodyOf(name + [' '] + value + post) == Metric(name, Strip(value))
  {
    var line := name + [' '] + value + post;
    assert line[|name|] == ' ';
    assert line[0] != '#';
    SplitTwoFields(name, value, post);
  }

  /** Splitting at spaces gives the name first and the value second. */
  lemma SplitTwoFields(name: string, value: string, post: string)
    requires ' ' !in name && ' ' !in value
    requires post == [] || post[0] == ' '
    ensures var data := Split(name + [' '] + value + post, ' ');
      |data| >= 2 && data[0] == name && data[1] == value
  {
    var after := value + post;
    assert name + [' '] + value + post == name + [' '] + after;
    SplitAfterPiece(name, ' ', after);
    if post == [] {
      assert after == value;
      SplitNoSep(value, ' ');
    } else {
      assert after == value + [' '] + post[1..];
      SplitAfterPiece(value, ' ', post[1..]);
    }
  }

  /** The line-only tests of the loop body, in source order. */
  function Lex(line: string): (r: LineKind)
    ensures r.Terminator? <==> Contains(line, TerminatorMark)
    ensures r.BrickName? <==> !Contains(line, TerminatorMark) && Contains(line, BrickMarker)
    ensures r.MountName? <==>
      !Contains(line, TerminatorMark) && !Contains(line, BrickMarker) && Contains(line, MountMarker)
    ensures r.MountName? || r.Other? ==> r.body == BodyOf(line)
    ensures r.BrickName? || r.MountName? ==> ':' in line && r.id == ColonField(line)
  {
    if Contains(line, TerminatorMark) then
      Terminator
    else if Contains(line, BrickMarker) then
      MarkerHasColon(line, BrickMarker);
      BrickName(ColonField(line))
    else if Contains(line, MountMarker) then
      MarkerHasColon(line, MountMarker);
      MountName(ColonField(line), BodyOf(line))
    else
      Other(BodyOf(line))
  }

  /** Every line of a file, classified. */
  function LexAll(lines: seq<string>): (r: seq<LineKind>)
    ensures |r| == |lines|
    decreases |lines|
  {
    if lines == [] then [] else [Lex(lines[0])] + LexAll(lines[1..])
  }

  lemma {:induction false} LexAllAt(lines: seq<string>, i: int)
    requires 0 <= i < |lines|
    ensures LexAll(lines)[i] == Lex(lines[i])
    decreases i
  {
    if i > 0 {
      LexAllAt(lines[1..], i - 1);
    }
  }

  lemma {:induction false} LexAllAppend(a: seq<string>, b: seq<string>)
    ensures LexAll(a + b) == LexAll(a) + LexAll(b)
    decreases |a|
  {
    if a == [] {
      assert a + b == b;
    } else {
      assert (a + b)[0] == a[0];
      assert (a + b)[1..] == a[1..] + b;
      LexAllAppend(a[1..], b);
    }
  }

  /** Number of lines before the first terminator. */
  function TerminatorIndex(kinds: seq<LineKind>): (r: nat)
    ensures r <= |kinds|
    ensures forall j :: 0 <= j < r ==> !kinds[j].Terminator?
    ensures r < |kinds| ==> kinds[r].Terminator?
    decreases |kinds|
  {
    if kinds == [] || kinds[0].Terminator? then 0
    else 1 + TerminatorIndex(kinds[1..])
  }

  /** The outcome of the rest of the file, behind one more line that sent
      `first`. */
  function Behind(first: seq<Sample>, rest: Result<seq<Sample>, Raised>): Result<seq<Sample>, Raised> {
    match rest
    case Ok(samples) => Ok(first + samples)
    case Err(IndexError(n, sent)) => Err(IndexError(n + 1, first + sent))
  }

  /** The key a metric is sent under while `procId` is in effect. */
  function IoKey(procId: string, name: string): string {
    ".io." + procId + "." + name
  }

  /** The `proc_id` state machine over classified lines: a BrickName line
      always sets the id, a MountName line only while it is unresolved. */
  function ParseKinds(kinds: seq<LineKind>, procId: string, ts: Timestamp): (r: Result<seq<Sample>, Raised>)
    ensures r.Ok? ==> AllAt(r.value, ts)
    ensures r.Err? ==> AllAt(r.error.sent, ts)
    decreases |kinds|
  {
    if kinds == [] then
      Ok([])
    else
      var k := kinds[0];
      if k.Terminator? then
        Ok([])
      else if k.BrickName? || (k.MountName? && procId == NullId) then
        Behind([], ParseKinds(kinds[1..], k.id, ts))
      else
        match k.body
        case Comment => Behind([], ParseKinds(kinds[1..], procId, ts))
        case Malformed => Err(IndexError(0, []))
        case Metric(name, value) =>
          Behind([Sample(IoKey(procId, name), value, ts)], ParseKinds(kinds[1..], procId, ts))
  }

  /** One dump file from its first line: the id starts unresolved. Only
      the lines before the first terminator matter; they send at most one
      sample each, and an exception names one of them whose body is
      malformed. */
  function Parse(lines: seq<string>, ts: Timestamp): (r: Result<seq<Sample>, Raised>)
    ensures r.Ok? ==> AllAt(r.value, ts)
    ensures r.Err? ==> AllAt(r.error.sent, ts)
    ensures r == ParseKinds(LexAll(lines[..TerminatorIndex(LexAll(lines))]), NullId, ts)
    ensures r.Ok? ==> |r.value| <= TerminatorIndex(LexAll(lines))
    ensures r.Err? ==>
      && r.error.line < TerminatorIndex(LexAll(lines))
      && BodyOf(lines[r.error.line]) == Malformed
      && |r.error.sent| <= r.error.line
  {
    ParseFacts(lines, ts);
    ParseKinds(LexAll(lines), NullId, ts)
  }

  /** What `ParseShape` and `TerminatorCut` say about a whole file. */
  lemma ParseFacts(lines: seq<string>, ts: Timestamp)
    ensures var r := ParseKinds(LexAll(lines), NullId, ts);
      var k := TerminatorIndex(LexAll(lines));
      && r == ParseKinds(LexAll(lines[..k]), NullId, ts)
      && (r.Ok? ==> |r.value| <= k)
      && (r.Err? ==> r.error.line < k && BodyOf(lines[r.error.line]) == Malformed && |r.error.sent| <= r.error.line)
  {
    var kinds := LexAll(lines);
    var k := TerminatorIndex(kinds);
    var r := ParseKinds(kinds, NullId, ts);
    ParseShape(kinds, NullId, ts);
    CutAtTerminator(kinds, k, ts);
    LexAllTake(lines, k);
    if r.Err? {
      LexAllAt(lines, r.error.line);
    }
  }


  /** Samples come only from lines before the terminator, at most one per
      line; an exception names a line before the terminator, and whatever
      was sent before it came from the lines above it. */
  lemma {:induction false} ParseShape(kinds: seq<LineKind>, procId: string, ts: Timestamp)
    ensures var r := ParseKinds(kinds, procId, ts);
      && (r.Ok? ==> |r.value| <= TerminatorIndex(kinds))
      && (r.Err? ==>
            && r.error.line < TerminatorIndex(kinds)
            && (kinds[r.error.line].MountName? || kinds[r.error.line].Other?)
            && kinds[r.error.line].body == Malformed
            && |r.error.sent| <= r.error.line)
    decreases |kinds|
  {
    if kinds != [] && !kinds[0].Terminator? {
      var k := kinds[0];
      assert TerminatorIndex(kinds) == 1 + TerminatorIndex(kinds[1..]);
      if k.BrickName? || (k.MountName? && procId == NullId) {
        ParseShape(kinds[1..], k.id, ts);
      } else {
        ParseShape(kinds[1..], procId, ts);
      }
    }
  }

  /** Every key sent starts with `.io.`. */
  lemma {:induction false} IoKeys(kinds: seq<LineKind>, procId: string, ts: Timestamp)
    ensures var r := ParseKinds(kinds, procId, ts);
      && (r.Ok? ==> forall i :: 0 <= i < |r.value| ==> ".io." <= r.value[i].key)
      && (r.Err? ==> forall i :: 0 <= i < |r.error.sent| ==> ".io." <= r.error.sent[i].key)
    decreases |kinds|
  {
    if kinds != [] && !kinds[0].Terminator? {
      var k := kinds[0];
      if k.BrickName? || (k.MountName? && procId == NullId) {
        IoKeys(kinds[1..], k.id, ts);
      } else {
        IoKeys(kinds[1..], procId, ts);
      }
    }
  }

  /** Nothing at or after a terminator line matters. */
  lemma {:induction false} TerminatorCut(prefix: seq<LineKind>, suffix: seq<LineKind>, procId: string, ts: Timestamp)
    ensures ParseKinds(prefix + [Terminator] + suffix, procId, ts) == ParseKinds(prefix, procId, ts)
    decreases |prefix|
  {
    var kinds := prefix + [Terminator] + suffix;
    if prefix != [] {
      assert kinds[0] == prefix[0];
      assert kinds[1..] == prefix[1..] + [Terminator] + suffix;
      var k := prefix[0];
      if k.BrickName? || (k.MountName? && procId == NullId) {
        TerminatorCut(prefix[1..], suffix, k.id, ts);
      } else {
        TerminatorCut(prefix[1..], suffix, procId, ts);
      }
    }
  }

  /** A line is classified as a terminator exactly when it holds the mark. */
  lemma LexAllTerminators(lines: seq<string>)
    ensures forall j :: 0 <= j < |lines| ==>
      (LexAll(lines)[j].Terminator? <==> Contains(lines[j], TerminatorMark))
  {
    forall j | 0 <= j < |lines|
      ensures LexAll(lines)[j].Terminator? <==> Contains(lines[j], TerminatorMark)
    {
      LexAllAt(lines, j);
    }
  }

  /** Parsing a file is parsing the lines before its first terminator. */
  lemma ParseStopsAtTerminator(lines: seq<string>, ts: Timestamp)
    ensures var k := TerminatorIndex(LexAll(lines));
      && (k < |lines| ==> Contains(lines[k], TerminatorMark))
      && (forall j :: 0 <= j < k ==> !Contains(lines[j], TerminatorMark))
      && Parse(lines, ts) == Parse(lines[..k], ts)
  {
    TerminatorLines(lines);
    ParseCut(lines, TerminatorIndex(LexAll(lines)), ts);
  }

  /** The first terminator of the classified file is the first line
      holding the mark. */
  lemma TerminatorLines(lines: seq<string>)
    ensures var k := TerminatorIndex(LexAll(lines));
      && (k < |lines| ==> Contains(lines[k], TerminatorMark))
      && (forall j :: 0 <= j < k ==> !Contains(lines[j], TerminatorMark))
  {
    LexAllTerminators(lines);
  }

  /** Cutting the file at its first terminator leaves its parse unchanged. */
  lemma ParseCut(lines: seq<string>, k: nat, ts: Timestamp)
    requires k == TerminatorIndex(LexAll(lines))
    ensures Parse(lines, ts) == Parse(lines[..k], ts)
  {
    var kinds := LexAll(lines);
    CutAtTerminator(kinds, k, ts);
    LexAllTake(lines, k);
  }

  /** Classifying a prefix of the lines is a prefix of the classification. */
  lemma LexAllTake(lines: seq<string>, k: nat)
    requires k <= |lines|
    ensures LexAll(lines[..k]) == LexAll(lines)[..k]
  {
    assert lines == lines[..k] + lines[k..];
    LexAllAppend(lines[..k], lines[k..]);
  }

  /** `TerminatorCut` at the first terminator of a classified file. */
  lemma CutAtTerminator(kinds: seq<LineKind>, k: nat, ts: Timestamp)
    requires k == TerminatorIndex(kinds)
    ensures ParseKinds(kinds, NullId, ts) == ParseKinds(kinds[..k], NullId, ts)
  {
    if k < |kinds| {
      assert kinds == kinds[..k] + [Terminator] + kinds[k + 1..];
      TerminatorCut(kinds[..k], kinds[k + 1..], NullId, ts);
    } else {
      assert kinds[..k] == kinds;
    }
  }

  /** A line beginning with `#`. */
  predicate CommentLine(line: string) {
    line != [] && line[0] == '#'
  }

  /** Marker, terminator and comment lines yield no sample and no error,
      whatever they do to the id. */
  lemma {:induction false} CommentsSendNothing(kinds: seq<LineKind>, procId: string, ts: Timestamp)
    requires forall i :: 0 <= i < |kinds| ==> kinds[i].Terminator? || kinds[i].BrickName? || kinds[i].body == Comment
    ensures ParseKinds(kinds, procId, ts) == Ok([])
    decreases |kinds|
  {
    if kinds != [] && !kinds[0].Terminator? {
      var k := kinds[0];
      assert forall i :: 0 <= i < |kinds| - 1 ==> kinds[1..][i] == kinds[i + 1];
      var next := if k.BrickName? || (k.MountName? && procId == NullId) then k.id else procId;
      CommentsSendNothing(kinds[1..], next, ts);
      assert ParseKinds(kinds, procId, ts) == Behind([], ParseKinds(kinds[1..], next, ts));
      var none: seq<Sample> := [];
      assert none + none == none;
    }
  }

  /** A file made only of `#` lines sends nothing. */
  lemma CommentFileSendsNothing(lines: seq<string>, ts: Timestamp)
    requires forall i :: 0 <= i < |lines| ==> CommentLine(lines[i])
    ensures Parse(lines, ts) == Ok([])
  {
    var kinds := LexAll(lines);
    forall i | 0 <= i < |kinds|
      ensures kinds[i].Terminator? || kinds[i].BrickName? || kinds[i].body == Comment
    {
      LexAllAt(lines, i);
      assert CommentLine(lines[i]);
    }
    CommentsSendNothing(kinds, NullId, ts);
  }

  /** A plain `<name> <value>` line: no terminator, no marker, not a
      comment, and holding a space. */
  predicate MetricLine(line: string) {
    && line != [] && line[0] != '#' && ' ' in line
    && !Contains(line, TerminatorMark) && !Contains(line, BrickMarker) && !Contains(line, MountMarker)
  }

  /** The body of a metric line, which is always a `Metric`. */
  function MetricOf(line: string): (r: Body)
    requires MetricLine(line)
    ensures r.Metric?
  {
    BodyOf(line)
  }

  /** The sample a metric line yields under `procId`. */
  function LineSample(procId: string, line: string, ts: Timestamp): Sample
    requires MetricLine(line)
  {
    var body := MetricOf(line);
    Sample(IoKey(procId, body.name), body.value, ts)
  }

  /** How a metric line is classified. */
  lemma MetricLineLex(line: string)
    requires MetricLine(line)
    ensures Lex(line) == Other(MetricOf(line))
  {
  }

  /** On classified lines: a run of metric lines sends one sample per line,
      in order, under the id in effect. */
  lemma {:induction false} MetricKinds(kinds: seq<LineKind>, procId: string, ts: Timestamp)
    requires forall i :: 0 <= i < |kinds| ==> kinds[i].Other? && kinds[i].body.Metric?
    ensures var r := ParseKinds(kinds, procId, ts);
      && r.Ok? && |r.value| == |kinds|
      && forall i :: 0 <= i < |kinds| ==>
           r.value[i] == Sample(IoKey(procId, kinds[i].body.name), kinds[i].body.value, ts)
    decreases |kinds|
  {
    if kinds != [] {
      assert kinds[0].Other?;
      MetricKinds(kinds[1..], procId, ts);
      var r := ParseKinds(kinds, procId, ts);
      forall i | 0 < i < |kinds|
        ensures r.value[i] == Sample(IoKey(procId, kinds[i].body.name), kinds[i].body.value, ts)
      {
        assert kinds[i] == kinds[1..][i - 1];
      }
    }
  }

  /** A block of metric lines parses to one sample per line, in line order,
      all keyed under the id in effect. */
  lemma MetricBlock(lines: seq<string>, procId: string, ts: Timestamp)
    requires forall i :: 0 <= i < |lines| ==> MetricLine(lines[i])
    ensures var r := ParseKinds(LexAll(lines), procId, ts);
      && r.Ok? && |r.value| == |lines|
      && forall i :: 0 <= i < |lines| ==> r.value[i] == LineSample(procId, lines[i], ts)
  {
    MetricLinesLex(lines);
    MetricKinds(LexAll(lines), procId, ts);
  }

  /** A file without any marker keys all its samples under `(null)`. */
  lemma UnmarkedFile(lines: seq<string>, ts: Timestamp)
    requires forall i :: 0 <= i < |lines| ==> MetricLine(lines[i])
    ensures Parse(lines, ts).Ok? && |Parse(lines, ts).value| == |lines|
    ensures forall i :: 0 <= i < |lines| ==>
      Parse(lines, ts).value[i].key == IoKey(NullId, Split(lines[i], ' ')[0])
  {
    MetricBlock(lines, NullId, ts);
  }

  /** On classified lines: a malformed line after a run of metric lines
      raises at its own index, once the run's samples have been sent. */
  lemma {:induction false} MalformedAfterMetrics(kinds: seq<LineKind>, rest: seq<LineKind>, procId: string, ts: Timestamp)
    requires forall i :: 0 <= i < |kinds| ==> kinds[i].Other? && kinds[i].body.Metric?
    ensures var r := ParseKinds(kinds + [Other(Malformed)] + rest, procId, ts);
      && r.Err? && r.error.line == |kinds|
      && ParseKinds(kinds, procId, ts).Ok?
      && r.error.sent == ParseKinds(kinds, procId, ts).value
    decreases |kinds|
  {
    var all := kinds + [Other(Malformed)] + rest;
    if kinds == [] {
      assert all[0] == Other(Malformed);
    } else {
      assert all[0] == kinds[0];
      assert all[1..] == kinds[1..] + [Other(Malformed)] + rest;
      assert forall i :: 0 <= i < |kinds| - 1 ==> kinds[1..][i] == kinds[i + 1];
      MalformedAfterMetrics(kinds[1..], rest, procId, ts);
    }
  }

  /** A metric line without a space, after a block of metric lines, raises
      `IndexError` at that line once the block's samples have been sent. */
  lemma MissingValueRaises(lines: seq<string>, bad: string, rest: seq<string>, procId: string, ts: Timestamp)
    requires forall i :: 0 <= i < |lines| ==> MetricLine(lines[i])
    requires bad != [] && bad[0] != '#' && ' ' !in bad
    requires !Contains(bad, TerminatorMark) && !Contains(bad, BrickMarker) && !Contains(bad, MountMarker)
    ensures var r := ParseKinds(LexAll(lines + [bad] + rest), procId, ts);
      && r.Err? && r.error.line == |lines|
      && ParseKinds(LexAll(lines), procId, ts).Ok?
      && r.error.sent == ParseKinds(LexAll(lines), procId, ts).value
  {
    MetricLinesLex(lines);
    LexAllAround(lines, bad, rest);
    assert Lex(bad) == Other(Malformed);
    MalformedAfterMetrics(LexAll(lines), LexAll(rest), procId, ts);
  }

  /** Metric lines classify as metric bodies. */
  lemma MetricLinesLex(lines: seq<string>)
    requires forall i :: 0 <= i < |lines| ==> MetricLine(lines[i])
    ensures forall i :: 0 <= i < |lines| ==>
      LexAll(lines)[i] == Other(MetricOf(lines[i]))
  {
    forall i | 0 <= i < |lines|
      ensures LexAll(lines)[i] == Other(MetricOf(lines[i]))
    {
      LexAllAt(lines, i);
      MetricLineLex(lines[i]);
    }
  }

  /** Classifying around one line. */
  lemma LexAllAround(lines: seq<string>, line: string, rest: seq<string>)
    ensures LexAll(lines + [line] + rest) == LexAll(lines) + [Lex(line)] + LexAll(rest)
  {
    LexAllAppend(lines, [line] + rest);
    LexAllAppend([line], rest);
    assert LexAll([line]) == [Lex(line)] + LexAll([]);
    assert lines + [line] + rest == lines + ([line] + rest);
  }

  /** On classified lines: a MountName line first puts its id in effect and
      sends nothing. */
  lemma MountFirst(id: string, body: Body, kinds: seq<LineKind>, ts: Timestamp)
    ensures ParseKinds([MountName(id, body)] + kinds, NullId, ts) == Behind([], ParseKinds(kinds, id, ts))
  {
    assert ([MountName(id, body)] + kinds)[1..] == kinds;
  }

  /** On classified lines: once the id is resolved, a MountName line is
      handled as the ordinary line it is; its own id plays no part. */
  lemma MountIgnored(id: string, body: Body, kinds: seq<LineKind>, procId: string, ts: Timestamp)
    requires procId != NullId
    ensures ParseKinds([MountName(id, body)] + kinds, procId, ts) == ParseKinds([Other(body)] + kinds, procId, ts)
  {
    assert ([MountName(id, body)] + kinds)[1..] == kinds;
    assert ([Other(body)] + kinds)[1..] == kinds;
  }

  /** A BrickName line sets the id whatever id is in effect. */
  lemma BrickOverrides(id: string, kinds: seq<LineKind>, procId: string, ts: Timestamp)
    ensures ParseKinds([BrickName(id)] + kinds, procId, ts) == Behind([], ParseKinds(kinds, id, ts))
  {
    assert ([BrickName(id)] + kinds)[1..] == kinds;
  }

  /** A BrickName line names the process for the metric lines after it. */
  lemma BrickNamesProcess(brick: string, lines: seq<string>, ts: Timestamp)
    requires Contains(brick, BrickMarker) && !Contains(brick, TerminatorMark)
    requires forall i :: 0 <= i < |lines| ==> MetricLine(lines[i])
    ensures ':' in brick
    ensures Parse([brick] + lines, ts).Ok? && |Parse([brick] + lines, ts).value| == |lines|
    ensures forall i :: 0 <= i < |lines| ==>
      Parse([brick] + lines, ts).value[i] == LineSample(ColonField(brick), lines[i], ts)
  {
    BrickKinds(brick, lines, ts);
  }

  /** `BrickNamesProcess` on the classified lines. */
  lemma BrickKinds(brick: string, lines: seq<string>, ts: Timestamp)
    requires Contains(brick, BrickMarker) && !Contains(brick, TerminatorMark)
    requires forall i :: 0 <= i < |lines| ==> MetricLine(lines[i])
    ensures ':' in brick
    ensures var r := ParseKinds(LexAll([brick] + lines), NullId, ts);
      && r.Ok? && |r.value| == |lines|
      && forall i :: 0 <= i < |lines| ==> r.value[i] == LineSample(ColonField(brick), lines[i], ts)
  {
    MarkerHasColon(brick, BrickMarker);
    var id := ColonField(brick);
    assert Lex(brick) == BrickName(id);
    assert ([brick] + lines)[1..] == lines;
    assert LexAll([brick] + lines) == [BrickName(id)] + LexAll(lines);
    BrickOverrides(id, LexAll(lines), NullId, ts);
    MetricBlock(lines, id, ts);
    var v := ParseKinds(LexAll(lines), id, ts).value;
    assert [] + v == v;
  }

  /** A MountName line names the process when no BrickName line does. */
  lemma MountNamesProcess(mount: string, lines: seq<string>, ts: Timestamp)
    requires Contains(mount, MountMarker)
    requires !Contains(mount, TerminatorMark) && !Contains(mount, BrickMarker)
    requires forall i :: 0 <= i < |lines| ==> MetricLine(lines[i])
    ensures ':' in mount
    ensures Parse([mount] + lines, ts).Ok? && |Parse([mount] + lines, ts).value| == |lines|
    ensures forall i :: 0 <= i < |lines| ==>
      Parse([mount] + lines, ts).value[i] == LineSample(ColonField(mount), lines[i], ts)
  {
    MountKinds(mount, lines, ts);
  }

  /** `MountNamesProcess` on the classified lines. */
  lemma MountKinds(mount: string, lines: seq<string>, ts: Timestamp)
    requires Contains(mount, MountMarker)
    requires !Contains(mount, TerminatorMark) && !Contains(mount, BrickMarker)
    requires forall i :: 0 <= i < |lines| ==> MetricLine(lines[i])
    ensures ':' in mount
    ensures var r := ParseKinds(LexAll([mount] + lines), NullId, ts);
      && r.Ok? && |r.value| == |lines|
      && forall i :: 0 <= i < |lines| ==> r.value[i] == LineSample(ColonField(mount), lines[i], ts)
  {
    MountLex(mount);
    var id := ColonField(mount);
    MountFirstLines(mount, lines);
    MountFirst(id, BodyOf(mount), LexAll(lines), ts);
    MetricBlock(lines, id, ts);
    var v := ParseKinds(LexAll(lines), id, ts).value;
    assert [] + v == v;
  }

  /** How a MountName line is classified. */
  lemma MountLex(mount: string)
    requires Contains(mount, MountMarker)
    requires !Contains(mount, TerminatorMark) && !Contains(mount, BrickMarker)
    ensures ':' in mount
    ensures Lex(mount) == MountName(ColonField(mount), BodyOf(mount))
  {
    MarkerHasColon(mount, MountMarker);
  }

  /** Classifying a file that starts with a MountName line. */
  lemma MountFirstLines(mount: string, lines: seq<string>)
    requires ':' in mount
    requires Lex(mount) == MountName(ColonField(mount), BodyOf(mount))
    ensures LexAll([mount] + lines) == [MountName(ColonField(mount), BodyOf(mount))] + LexAll(lines)
  {
    LexAllAround([], mount, lines);
    assert [] + [mount] + lines == [mount] + lines;
  }

  /** Classifying two leading lines. */
  lemma LexAllTwo(x: string, y: string, rest: seq<string>)
    ensures LexAll([x, y] + rest) == [Lex(x), Lex(y)] + LexAll(rest)
  {
    LexAllAppend([x, y], rest);
    assert [x, y][1..] == [y];
    assert LexAll([y]) == [Lex(y)] + LexAll([]);
  }

  /** On classified lines: a BrickName id followed or preceded by a
      MountName comment puts the brick's id in effect either way, and the
      two lines send nothing. */
  lemma BrickBeatsMountKinds(id: string, m: LineKind, rest: seq<LineKind>, ts: Timestamp)
    requires id != NullId
    requires m.MountName? && m.body == Comment
    ensures ParseKinds([BrickName(id), m] + rest, NullId, ts) == ParseKinds([m, BrickName(id)] + rest, NullId, ts)
    ensures ParseKinds([BrickName(id), m] + rest, NullId, ts) == Behind([], Behind([], ParseKinds(rest, id, ts)))
  {
    assert ([BrickName(id), m] + rest)[1..][1..] == rest;
    assert ([m, BrickName(id)] + rest)[1..][1..] == rest;
  }

  /** With both markers the BrickName value wins, whichever comes first
      (a MountName line met after the id is resolved is an ordinary comment). */
  lemma BrickBeatsMount(brick: string, mount: string, lines: seq<string>, ts: Timestamp)
    requires Contains(brick, BrickMarker) && !Contains(brick, TerminatorMark)
    requires CommentLine(mount) && Contains(mount, MountMarker)
    requires !Contains(mount, TerminatorMark) && !Contains(mount, BrickMarker)
    ensures ':' in brick
    ensures ColonField(brick) != NullId ==>
      && Parse([brick, mount] + lines, ts) == Parse([mount, brick] + lines, ts)
      && Parse([brick, mount] + lines, ts) == Behind([], Behind([], ParseKinds(LexAll(lines), ColonField(brick), ts)))
  {
    MarkerHasColon(brick, BrickMarker);
    LexAllTwo(brick, mount, lines);
    LexAllTwo(mount, brick, lines);
    if ColonField(brick) != NullId {
      BrickBeatsMountKinds(ColonField(brick), Lex(mount), LexAll(lines), ts);
    }
  }

  /** One discovered dump file. */
  datatype DumpFile = DumpFile(name: string, lines: seq<string>)

  /** The names of the files, in discovery order. */
  function Names(files: seq<DumpFile>): (r: seq<string>)
    ensures |r| == |files|
    decreases |files|
  {
    if files == [] then [] else [files[0].name] + Names(files[1..])
  }

  /** What one `local_io_metrics` pass did: the samples sent, the files
      removed (in order) and, when a line raised, its index in its file. */
  datatype IoOutcome = IoOutcome(sent: seq<Sample>, removed: seq<string>, raised: Option<nat>)

  /** Each file parsed on its own, from an unresolved id, all under the
      pass's one timestamp. */
  function ParseEach(files: seq<DumpFile>, ts: Timestamp): (r: seq<Result<seq<Sample>, Raised>>)
    ensures |r| == |files|
    decreases |files|
  {
    if files == [] then [] else [Parse(files[0].lines, ts)] + ParseEach(files[1..], ts)
  }

  /** The file loop of `local_io_metrics` given each file's parse: the
      samples are sent and the file removed, until an exception ends the
      pass before the failing file is removed. */
  function Sweep(files: seq<DumpFile>, parsed: seq<Result<seq<Sample>, Raised>>): (r: IoOutcome)
    requires |parsed| == |files|
    ensures r.raised.None? <==> r.removed == Names(files)
    decreases |files|
  {
    if files == [] then
      IoOutcome([], [], None)
    else if parsed[0].Err? then
      IoOutcome(parsed[0].error.sent, [], Some(parsed[0].error.line))
    else
      var rest := Sweep(files[1..], parsed[1..]);
      var removed := [files[0].name] + rest.removed;
      assert removed[1..] == rest.removed && Names(files)[1..] == Names(files[1..]);
      IoOutcome(parsed[0].value + rest.sent, removed, rest.raised)
  }

  /** One `local_io_metrics` pass over the discovered files. */
  function IoPass(files: seq<DumpFile>, ts: Timestamp): (r: IoOutcome)
    ensures AllAt(r.sent, ts)
    ensures r.removed <= Names(files)
    ensures r.raised.None? <==> r.removed == Names(files)
  {
    SweepAllAt(files, ParseEach(files, ts), ts);
    SweepRemovesInOrder(files, ParseEach(files, ts));
    Sweep(files, ParseEach(files, ts))
  }

  /** Every file parses without an exception. */
  predicate AllParse(files: seq<DumpFile>, ts: Timestamp) {
    forall i :: 0 <= i < |files| ==> Parse(files[i].lines, ts).Ok?
  }

  /** What files that all parse send: each file's samples, in discovery
      order. */
  function SentByFiles(files: seq<DumpFile>, ts: Timestamp): seq<Sample>
    requires AllParse(files, ts)
    decreases |files|
  {
    if files == [] then [] else Parse(files[0].lines, ts).value + SentByFiles(files[1..], ts)
  }

  /** A pass in which no file raises sends every file's samples in
      discovery order and removes every file. */
  lemma {:induction false} IoPassClean(files: seq<DumpFile>, ts: Timestamp)
    requires AllParse(files, ts)
    ensures IoPass(files, ts) == IoOutcome(SentByFiles(files, ts), Names(files), None)
    decreases |files|
  {
    if files != [] {
      AllParseTail(files, ts, |files|);
      assert files[..|files|][1..] == files[1..];
      IoPassClean(files[1..], ts);
      IoPassStep(files, ts);
    }
  }

  /** A pass in which file `k` is the first to raise sends the samples of
      the files before it, then what file `k` sent before its exception,
      and removes only the files before it. */
  lemma {:induction false} IoPassRaises(files: seq<DumpFile>, ts: Timestamp, k: nat)
    requires k < |files|
    requires AllParse(files[..k], ts)
    requires Parse(files[k].lines, ts).Err?
    ensures var e := Parse(files[k].lines, ts).error;
      IoPass(files, ts) == IoOutcome(SentByFiles(files[..k], ts) + e.sent, Names(files[..k]), Some(e.line))
    decreases k
  {
    var e := Parse(files[k].lines, ts).error;
    if k == 0 {
      assert files[..0] == [];
    } else {
      var tail := files[1..];
      assert tail[..k - 1] == files[..k][1..];
      assert tail[k - 1] == files[k];
      AllParseTail(files, ts, k);
      IoPassRaises(tail, ts, k - 1);
      IoPassStep(files, ts);
      var head := Parse(files[0].lines, ts).value;
      ConcatAssoc(head, SentByFiles(tail[..k - 1], ts), e.sent);
    }
  }

  /** The files after the first of a parsing prefix still parse. */
  lemma AllParseTail(files: seq<DumpFile>, ts: Timestamp, k: nat)
    requires 0 < k <= |files|
    requires AllParse(files[..k], ts)
    ensures Parse(files[0].lines, ts).Ok?
    ensures AllParse(files[..k][1..], ts)
    ensures SentByFiles(files[..k], ts) == Parse(files[0].lines, ts).value + SentByFiles(files[..k][1..], ts)
    ensures Names(files[..k]) == [files[0].name] + Names(files[..k][1..])
  {
    var pre := files[..k];
    assert pre[0] == files[0];
    forall i | 0 <= i < |pre| - 1 ensures Parse(pre[1..][i].lines, ts).Ok? {
      assert pre[1..][i] == pre[i + 1];
    }
  }

  /** A first file that parses is sent and removed before the rest of the
      pass. */
  lemma IoPassStep(files: seq<DumpFile>, ts: Timestamp)
    requires files != [] && Parse(files[0].lines, ts).Ok?
    ensures IoPass(files, ts).sent == Parse(files[0].lines, ts).value + IoPass(files[1..], ts).sent
    ensures IoPass(files, ts).removed == [files[0].name] + IoPass(files[1..], ts).removed
    ensures IoPass(files, ts).raised == IoPass(files[1..], ts).raised
  {
    assert ParseEach(files, ts)[1..] == ParseEach(files[1..], ts);
  }

  /** Files are removed in discovery order, without gaps. */
  lemma {:induction false} SweepRemovesInOrder(files: seq<DumpFile>, parsed: seq<Result<seq<Sample>, Raised>>)
    requires |parsed| == |files|
    ensures Sweep(files, parsed).removed <= Names(files)
    decreases |files|
  {
    if files != [] && parsed[0].Ok? {
      SweepRemovesInOrder(files[1..], parsed[1..]);
    }
  }

  /** Sent samples keep the timestamp every parse carried. */
  lemma {:induction false} SweepAllAt(files: seq<DumpFile>, parsed: seq<Result<seq<Sample>, Raised>>, ts: Timestamp)
    requires |parsed| == |files|
    requires parsed == ParseEach(files, ts)
    ensures AllAt(Sweep(files, parsed).sent, ts)
    decreases |files|
  {
    if files != [] {
      assert parsed[1..] == ParseEach(files[1..], ts);
      SweepAllAt(files[1..], parsed[1..], ts);
    }
  }

  /** The process id never carries over from one file to the next: a pass
      over two groups of files is the two passes one after the other. */
  lemma IoPassAppend(first: seq<DumpFile>, second: seq<DumpFile>, ts: Timestamp)
    requires IoPass(first, ts).raised.None?
    ensures IoPass(first + second, ts).sent == IoPass(first, ts).sent + IoPass(second, ts).sent
    ensures IoPass(first + second, ts).removed == IoPass(first, ts).removed + IoPass(second, ts).removed
  {
    ParseEachAppend(first, second, ts);
    SweepAppend(first, second, ParseEach(first, ts), ParseEach(second, ts));
  }

  lemma {:induction false} ParseEachAppend(first: seq<DumpFile>, second: seq<DumpFile>, ts: Timestamp)
    ensures ParseEach(first + second, ts) == ParseEach(first, ts) + ParseEach(second, ts)
    decreases |first|
  {
    if first == [] {
      assert first + second == second;
    } else {
      assert (first + second)[0] == first[0];
      assert (first + second)[1..] == first[1..] + second;
      ParseEachAppend(first[1..], second, ts);
    }
  }

  lemma {:induction false} SweepAppend(first: seq<DumpFile>, second: seq<DumpFile>, p1: seq<Result<seq<Sample>, Raised>>, p2: seq<Result<seq<Sample>, Raised>>)
    requires |p1| == |first| && |p2| == |second|
    requires Sweep(first, p1).raised.None?
    ensures Sweep(first + second, p1 + p2).sent == Sweep(first, p1).sent + Sweep(second, p2).sent
    ensures Sweep(first + second, p1 + p2).removed == Sweep(first, p1).removed + Sweep(second, p2).removed
  {
    SweepAppendSent(first, second, p1, p2);
    SweepAppendRemoved(first, second, p1, p2);
  }

  lemma {:induction false} SweepAppendSent(first: seq<DumpFile>, second: seq<DumpFile>, p1: seq<Result<seq<Sample>, Raised>>, p2: seq<Result<seq<Sample>, Raised>>)
    requires |p1| == |first| && |p2| == |second|
    requires Sweep(first, p1).raised.None?
    ensures Sweep(first + second, p1 + p2).sent == Sweep(first, p1).sent + Sweep(second, p2).sent
    decreases |first|
  {
    if first == [] {
      assert first + second == second;
      assert p1 + p2 == p2;
    } else {
      SweepAppendStep(first, second, p1, p2);
      SweepAppendSent(first[1..], second, p1[1..], p2);
      var head := p1[0].value;
      var tail := Sweep(first[1..], p1[1..]).sent;
      var other := Sweep(second, p2).sent;
      ConcatAssoc(head, tail, other);
    }
  }

  lemma {:induction false} SweepAppendRemoved(first: seq<DumpFile>, second: seq<DumpFile>, p1: seq<Result<seq<Sample>, Raised>>, p2: seq<Result<seq<Sample>, Raised>>)
    requires |p1| == |first| && |p2| == |second|
    requires Sweep(first, p1).raised.None?
    ensures Sweep(first + second, p1 + p2).removed == Sweep(first, p1).removed + Sweep(second, p2).removed
    decreases |first|
  {
    if first == [] {
      assert first + second == second;
      assert p1 + p2 == p2;
    } else {
      SweepAppendStep(first, second, p1, p2);
      SweepAppendRemoved(first[1..], second, p1[1..], p2);
      var name := [first[0].name];
      var tail := Sweep(first[1..], p1[1..]).removed;
      var other := Sweep(second, p2).removed;
      ConcatAssoc(name, tail, other);
    }
  }

  /** One unfolding of `Sweep` over appended files. */
  lemma {:induction false} SweepAppendStep(first: seq<DumpFile>, second: seq<DumpFile>, p1: seq<Result<seq<Sample>, Raised>>, p2: seq<Result<seq<Sample>, Raised>>)
    requires |p1| == |first| && |p2| == |second| && first != []
    requires Sweep(first, p1).raised.None?
    ensures p1[0].Ok? && Sweep(first[1..], p1[1..]).raised.None?
    ensures var whole := Sweep(first + second, p1 + p2);
      var rest := Sweep(first[1..] + second, p1[1..] + p2);
      && whole.sent == p1[0].value + rest.sent
      && whole.removed == [first[0].name] + rest.removed
    ensures Sweep(first, p1).sent == p1[0].value + Sweep(first[1..], p1[1..]).sent
    ensures Sweep(first, p1).removed == [first[0].name] + Sweep(first[1..], p1[1..]).removed
  {
    assert (first + second)[0] == first[0];
    assert (first + second)[1..] == first[1..] + second;
    assert (p1 + p2)[0] == p1[0];
    assert (p1 + p2)[1..] == p1[1..] + p2;
  }
}
