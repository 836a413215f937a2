/** What every probe returns — a result hash with `returncode`, `text` and
    `perfdata` — together with the threshold ladders the probes classify
    with and the `label=value;warn;crit;min;max` performance-data items
    they write. */
module Probe {
  import opened Wrappers
  import opened Lines
  import opened Numbers

  /** The monitoring protocol's status codes. */
  const OK: int := 0
  const WARNING: int := 1
  const CRITICAL: int := 2
  const UNKNOWN: int := 3

  /** One probe result. A probe that never sets `perfdata` leaves it `nil`,
      which the aggregation treats differently from the empty string. A
      `nil` text interpolates as the empty string, so `text` needs no such
      distinction. */
  datatype Outcome = Outcome(code: int, text: string, perfdata: Option<string>)

  /** The exceptions that end a probe, and with it the whole script. */
  datatype Crash =
    | FloatDomainError  // `round` of the infinity or NaN from dividing by a zero total
    | NoMethodError     // a method called on the `nil` of a missing line or field

  /** The word a ladder probe puts in front of its text. */
  function LadderWord(code: int): string {
    if code == CRITICAL then "CRITICAL" else if code == WARNING then "WARNING" else "OK"
  }

  /** A boolean as string interpolation writes it. */
  function ShowBool(b: bool): string {
    if b then "true" else "false"
  }

  // ---------------------------------------------------------------------
  // Threshold ladders
  // ---------------------------------------------------------------------

  /** The ladder for a quantity where more is worse (CPU busy, swap
      page-outs, clock offset, queued mail): CRITICAL from `crit` up,
      otherwise WARNING from `warn` up. */
  function Ladder(value: real, warn: real, crit: real): int {
    if value >= crit then CRITICAL else if value >= warn then WARNING else OK
  }

  /** The ladder for a quantity where less is worse (percent of RAM free):
      CRITICAL at or below `crit`, otherwise WARNING at or below `warn`. */
  function InvertedLadder(value: int, warn: int, crit: int): int {
    if value <= crit then CRITICAL else if value <= warn then WARNING else OK
  }

  /** Each code of the ladder belongs to one band of values. */
  lemma LadderBands(value: real, warn: real, crit: real)
    ensures OK <= Ladder(value, warn, crit) <= CRITICAL
    ensures Ladder(value, warn, crit) == CRITICAL <==> value >= crit
    ensures Ladder(value, warn, crit) == WARNING <==> warn <= value < crit
    ensures Ladder(value, warn, crit) == OK <==> value < warn && value < crit
  {
  }

  /** A worse value never gives a better code. */
  lemma LadderMonotone(v1: real, v2: real, warn: real, crit: real)
    requires v1 <= v2
    ensures Ladder(v1, warn, crit) <= Ladder(v2, warn, crit)
  {
  }

  /** With `crit` not above `warn` the WARNING band is empty. */
  lemma LadderSkipsWarning(value: real, warn: real, crit: real)
    requires crit <= warn
    ensures Ladder(value, warn, crit) != WARNING
  {
  }

  /** Each code of the inverted ladder belongs to one band of values. */
  lemma InvertedLadderBands(value: int, warn: int, crit: int)
    ensures OK <= InvertedLadder(value, warn, crit) <= CRITICAL
    ensures InvertedLadder(value, warn, crit) == CRITICAL <==> value <= crit
    ensures InvertedLadder(value, warn, crit) == WARNING <==> crit < value <= warn
    ensures InvertedLadder(value, warn, crit) == OK <==> value > warn && value > crit
  {
  }

  /** Less free memory never gives a better code. */
  lemma InvertedLadderAntitone(v1: int, v2: int, warn: int, crit: int)
    requires v1 <= v2
    ensures InvertedLadder(v1, warn, crit) >= InvertedLadder(v2, warn, crit)
  {
  }

  // ---------------------------------------------------------------------
  // Performance data
  // ---------------------------------------------------------------------

  /** One performance-data item: `label=value` followed by `;field` for each
      threshold or bound the probe writes (possibly empty, as in `;;;0`). */
  datatype Metric = Metric(name: string, value: string, fields: seq<string>)

  function FieldsSuffix(fields: seq<string>): string {
    if fields == [] then "" else ";" + fields[0] + FieldsSuffix(fields[1..])
  }

  function RenderMetric(m: Metric): string {
    m.name + "=" + m.value + FieldsSuffix(m.fields)
  }

  /** Items separated by single spaces, as the probes interpolate them. */
  function RenderMetrics(ms: seq<Metric>): string {
    JoinWith(seq(|ms|, i requires 0 <= i < |ms| => RenderMetric(ms[i])), ' ')
  }

  /** The label of a performance-data item: its text before the first `=`. */
  function Label(item: string): string {
    Fields(item, '=')[0]
  }

  /** The labels a monitoring front end reads from a perfdata string. */
  function PerfLabels(perf: string): seq<string> {
    var items := Words(perf);
    seq(|items|, i requires 0 <= i < |items| => Label(items[i]))
  }

  /** A label a front end can read back: non-empty, without white space or `=`. */
  predicate PlainName(name: string) {
    name != [] && NoSpace(name) && '=' !in name
  }

  /** A metric whose parts hold no white space, and whose name is plain. */
  predicate PlainMetric(m: Metric) {
    && PlainName(m.name)
    && NoSpace(m.value)
    && forall j | 0 <= j < |m.fields| :: NoSpace(m.fields[j])
  }

  lemma ShowIntHasNoSpace(n: int)
    ensures NoSpace(ShowInt(n))
  {
  }

  lemma NoSpaceAppend(a: string, b: string)
    requires NoSpace(a) && NoSpace(b)
    ensures NoSpace(a + b)
  {
  }

  lemma {:induction false} FieldsSuffixNoSpace(fields: seq<string>)
    requires forall j | 0 <= j < |fields| :: NoSpace(fields[j])
    ensures NoSpace(FieldsSuffix(fields))
    decreases |fields|
  {
    if fields != [] {
      FieldsSuffixNoSpace(fields[1..]);
      NoSpaceAppend(";", fields[0]);
      NoSpaceAppend(";" + fields[0], FieldsSuffix(fields[1..]));
    }
  }

  /** One item renders as itself, and two fields as `;a;b`. */
  lemma RenderOne(m: Metric)
    ensures RenderMetrics([m]) == RenderMetric(m)
  {
  }

  lemma FieldsSuffixTwo(a: string, b: string)
    ensures FieldsSuffix([a, b]) == ";" + a + ";" + b
  {
    assert [a, b][1..] == [b];
    assert [b][1..] == [];
    assert FieldsSuffix([b]) == ";" + b;
  }

  lemma RenderedMetric(m: Metric)
    requires PlainMetric(m)
    ensures RenderMetric(m) != [] && NoSpace(RenderMetric(m))
    ensures Label(RenderMetric(m)) == m.name
  {
    FieldsSuffixNoSpace(m.fields);
    NoSpaceAppend(m.name, "=");
    NoSpaceAppend(m.name + "=", m.value);
    NoSpaceAppend(m.name + "=" + m.value, FieldsSuffix(m.fields));
    var rest := m.value + FieldsSuffix(m.fields);
    assert RenderMetric(m) == m.name + ['='] + rest;
    FieldsCons(m.name, '=', rest);
  }

  /** The perfdata string of plain metrics splits back into the rendered
      items, and so carries their labels, in order, and nothing else. */
  lemma LabelsOfMetrics(ms: seq<Metric>)
    requires forall i | 0 <= i < |ms| :: PlainMetric(ms[i])
    ensures Words(RenderMetrics(ms)) == seq(|ms|, i requires 0 <= i < |ms| => RenderMetric(ms[i]))
    ensures PerfLabels(RenderMetrics(ms)) == seq(|ms|, i requires 0 <= i < |ms| => ms[i].name)
  {
    var items := seq(|ms|, i requires 0 <= i < |ms| => RenderMetric(ms[i]));
    forall i | 0 <= i < |ms|
      ensures items[i] != [] && NoSpace(items[i]) && Label(items[i]) == ms[i].name
    {
      RenderedMetric(ms[i]);
    }
    WordsOfJoin(items);
  }

  /** The same, for metrics given with their expected names. */
  lemma LabelsOfNamed(ms: seq<Metric>, names: seq<string>)
    requires |ms| == |names|
    requires forall i | 0 <= i < |ms| :: PlainMetric(ms[i]) && ms[i].name == names[i]
    ensures PerfLabels(RenderMetrics(ms)) == names
  {
    LabelsOfMetrics(ms);
  }
}
