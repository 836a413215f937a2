/** check_sar_cpu: classifies the CPU row of `sar` by busy time (100 minus
    %idle), then lets the steal-time test decide the return code. */
module SarCpu {
  import opened Wrappers
  import opened Lines
  import opened Numbers
  import opened Probe
  import opened Scan
  import opened SarRow

  /** The six columns of the row, each `to_f.round`ed. */
  datatype CpuSample = CpuSample(user: int, nice: int, system: int, iowait: int, steal: int, idle: int)

  /** The captures, in the column order `sar` prints:
      %user %nice %system %iowait %steal %idle. */
  function Sample(ts: seq<Token>): CpuSample
    requires |ts| == 6 && ValidTokens(ts)
  {
    CpuSample(Rounded(ts[0]), Rounded(ts[1]), Rounded(ts[2]), Rounded(ts[3]), Rounded(ts[4]), Rounded(ts[5]))
  }

  /** Steal time at or above this percentage raises a warning. */
  const StealLimit: int := 10

  /** The idle test's code: the increasing ladder on busy time. */
  function IdleCode(idle: int, warn: int, crit: int): int {
    if 100 - idle >= crit then CRITICAL else if 100 - idle >= warn then WARNING else OK
  }

  /** The wording of the idle test. */
  function IdleWords(idle: int, warn: int, crit: int): string {
    if 100 - idle >= crit then "CRITICAL - idle: " + ShowInt(idle) + "% < " + ShowInt(100 - crit) + "%"
    else if 100 - idle >= warn then "WARNING - idle: " + ShowInt(idle) + "% < " + ShowInt(100 - warn) + "%"
    else "OK - idle: " + ShowInt(idle) + "%"
  }

  /** The steal test's code. */
  function StealCode(steal: int): int {
    if steal >= StealLimit then WARNING else OK
  }

  /** The wording of the steal test, which goes before the idle wording. */
  function StealWords(steal: int): string {
    if steal >= StealLimit then "WARNING - steal time: " + ShowInt(steal) + "% >= 10%"
    else "OK - steal time: " + ShowInt(steal) + "%"
  }

  /** The two verdicts at the head of the text. */
  function Verdicts(s: CpuSample, warn: int, crit: int): string {
    StealWords(s.steal) + IdleWords(s.idle, warn, crit)
  }

  /** The column readings after the verdicts. */
  function Details(s: CpuSample, interactive: Setting): string {
    Readings(s) + ModeField(interactive)
  }

  function Readings(s: CpuSample): string {
    " user: " + ShowInt(s.user) + "% system: " + ShowInt(s.system)
    + "% iowait: " + ShowInt(s.iowait) + "% steal: " + ShowInt(s.steal)
    + " nice: " + ShowInt(s.nice)
  }

  /** The last field of the text, with the mode as interpolation writes it. */
  function ModeField(interactive: Setting): string {
    "% interactive_mode: " + ShowSetting(interactive)
  }

  function CpuText(s: CpuSample, warn: int, crit: int, interactive: Setting): string {
    Verdicts(s, warn, crit) + Details(s, interactive)
  }

  /** A percentage metric with the thresholds `warn`, `crit` and minimum 0. */
  function Percent(name: string, v: int, warn: int, crit: int): Metric {
    Metric(name, ShowInt(v) + "%", [ShowInt(warn), ShowInt(crit), "0"])
  }

  /** Percentage metrics, one per name, with per-metric thresholds. */
  function Percents(names: seq<string>, values: seq<int>, warns: seq<int>, crits: seq<int>): (ms: seq<Metric>)
    requires |values| == |names| && |warns| == |names| && |crits| == |names|
    ensures |ms| == |names|
  {
    seq(|names|, i requires 0 <= i < |names| => Percent(names[i], values[i], warns[i], crits[i]))
  }

  /** The perfdata labels, in the order the script writes them. */
  const CpuNames: seq<string> := ["%idle", "%user", "%system", "%iowait", "%nice", "%steal"]

  /** The perfdata of a matched row: %idle carries the idle thresholds
      `100-warn` and `100-crit`, the other columns the busy thresholds. */
  function CpuMetrics(s: CpuSample, warn: int, crit: int): seq<Metric> {
    Percents(CpuNames, [s.idle, s.user, s.system, s.iowait, s.nice, s.steal],
      [100 - warn, warn, warn, warn, warn, warn], [100 - crit, crit, crit, crit, crit, crit])
  }

  /** The result for a matched row, as the script computes it: the return
      code is the steal test's alone. */
  function CpuOutcomeAsWritten(s: CpuSample, warn: int, crit: int, interactive: Setting): Outcome {
    Outcome(StealCode(s.steal), CpuText(s, warn, crit, interactive), Some(RenderMetrics(CpuMetrics(s, warn, crit))))
  }

  /** The worse of the two tests' codes. */
  function CorrectedCode(s: CpuSample, warn: int, crit: int): int {
    var idleCode, stealCode := IdleCode(s.idle, warn, crit), StealCode(s.steal);
    if idleCode >= stealCode then idleCode else stealCode
  }

  /** The result for a matched row with the steal test raising the idle
      test's code instead of replacing it. */
  function CpuOutcome(s: CpuSample, warn: int, crit: int, interactive: Setting): Outcome {
    Outcome(CorrectedCode(s, warn, crit), CpuText(s, warn, crit, interactive), Some(RenderMetrics(CpuMetrics(s, warn, crit))))
  }

  const NoMatchText: string := "WARNING: check_sar_cpu() regex did not match!"

  /** Zero-valued metrics for the first four columns, so graphs keep their bounds. */
  function NoMatchMetrics(warn: int, crit: int): seq<Metric> {
    Percents(CpuNames[..4], [0, 0, 0, 0], [100 - warn, warn, warn, warn], [100 - crit, crit, crit, crit])
  }

  function NoMatch(warn: int, crit: int): Outcome {
    Outcome(WARNING, NoMatchText, Some(RenderMetrics(NoMatchMetrics(warn, crit))))
  }

  /** check_sar_cpu as written; `report` is the plain `sar` run and `live`
      the output of the 25-second live sample. */
  function CheckSarCpuAsWritten(warn: int, crit: int, interactive: Setting, report: SarRun, live: string): (r: Outcome)
    ensures r.code == OK || r.code == WARNING
    ensures r.perfdata.Some?
  {
    var sel := SelectRow(6, interactive, report, live);
    match sel.row
    case None => NoMatch(warn, crit)
    case Some(ts) => CpuOutcomeAsWritten(Sample(ts), warn, crit, sel.interactive)
  }

  /** check_sar_cpu with the steal test only ever raising the code. */
  function CheckSarCpu(warn: int, crit: int, interactive: Setting, report: SarRun, live: string): (r: Outcome)
    ensures OK <= r.code <= CRITICAL
    ensures var w := CheckSarCpuAsWritten(warn, crit, interactive, report, live);
      r.code >= w.code && r.text == w.text && r.perfdata == w.perfdata
  {
    var sel := SelectRow(6, interactive, report, live);
    match sel.row
    case None => NoMatch(warn, crit)
    case Some(ts) => CpuOutcome(Sample(ts), warn, crit, sel.interactive)
  }

  // ---------------------------------------------------------------------
  // Properties
  // ---------------------------------------------------------------------

  /** The idle test is the increasing ladder applied to busy time. */
  lemma IdleIsBusyLadder(idle: int, warn: int, crit: int)
    ensures IdleCode(idle, warn, crit) == Ladder((100 - idle) as real, warn as real, crit as real)
  {
  }

  /** As written, the code is 1 exactly when rounded steal time is 10 or
      more and 0 otherwise, whatever the idle test found; the text still
      starts with the steal wording followed by the idle wording. */
  lemma AsWrittenCodeIsSteal(s: CpuSample, warn: int, crit: int, interactive: Setting)
    ensures var r := CpuOutcomeAsWritten(s, warn, crit, interactive);
      var w := StealWords(s.steal) + IdleWords(s.idle, warn, crit);
      && r.code == (if s.steal >= StealLimit then WARNING else OK)
      && |w| <= |r.text| && r.text[..|w|] == w
  {
    PrefixOfAppend(Verdicts(s, warn, crit), Details(s, interactive));
  }

  lemma PrefixOfAppend(a: string, b: string)
    ensures (a + b)[..|a|] == a
  {
  }

  /** As written, a CPU whose busy time reaches `crit` while steal time stays
      below 10% is reported with code 0 under a CRITICAL idle wording. */
  lemma StealOverrideHidesCritical(s: CpuSample, warn: int, crit: int, interactive: Setting)
    requires 100 - s.idle >= crit && s.steal < StealLimit
    ensures IdleCode(s.idle, warn, crit) == CRITICAL
    ensures CpuOutcomeAsWritten(s, warn, crit, interactive).code == OK
  {
  }

  /** With the steal test raising the code, the code is the worse of the two
      tests: CRITICAL exactly when busy time reaches `crit`, at least WARNING
      when steal time reaches 10%, and OK exactly when neither busy time nor
      steal time reaches a threshold. */
  lemma CorrectedCodeIsWorst(s: CpuSample, warn: int, crit: int, interactive: Setting)
    ensures var c := CpuOutcome(s, warn, crit, interactive).code;
      && c >= IdleCode(s.idle, warn, crit)
      && (s.steal >= StealLimit ==> c >= WARNING)
      && (c == CRITICAL <==> 100 - s.idle >= crit)
      && (c == OK <==> 100 - s.idle < warn && 100 - s.idle < crit && s.steal < StealLimit)
  {
  }

  /** The two versions differ only in the code. */
  lemma CorrectedKeepsTextAndPerfdata(s: CpuSample, warn: int, crit: int, interactive: Setting)
    ensures CpuOutcome(s, warn, crit, interactive)
         == CpuOutcomeAsWritten(s, warn, crit, interactive).(code := CorrectedCode(s, warn, crit))
  {
  }

  /** When no candidate line matches, the probe warns that the regex did
      not match, whichever version of the code test is used. */
  lemma NoMatchOutcome(warn: int, crit: int, interactive: Setting, report: SarRun, live: string)
    requires SelectRow(6, interactive, report, live).row.None?
    ensures var r := CheckSarCpuAsWritten(warn, crit, interactive, report, live);
      && r == CheckSarCpu(warn, crit, interactive, report, live)
      && r == NoMatch(warn, crit)
      && r.code == WARNING && r.text == NoMatchText
  {
  }

  /** The no-match perfdata: zero-valued %idle, %user, %system and %iowait
      items, each a separate word; %idle is held to `100 - warn` and
      `100 - crit`, the other three to `warn` and `crit`, all with minimum 0. */
  lemma NoMatchPerfdata(warn: int, crit: int)
    ensures NoMatch(warn, crit).perfdata.Some?
    ensures PerfLabels(NoMatch(warn, crit).perfdata.value) == ["%idle", "%user", "%system", "%iowait"]
    ensures Words(NoMatch(warn, crit).perfdata.value) ==
      [ "%idle=0%;" + ShowInt(100 - warn) + ";" + ShowInt(100 - crit) + ";0"
      , "%user=0%;" + ShowInt(warn) + ";" + ShowInt(crit) + ";0"
      , "%system=0%;" + ShowInt(warn) + ";" + ShowInt(crit) + ";0"
      , "%iowait=0%;" + ShowInt(warn) + ";" + ShowInt(crit) + ";0" ]
  {
    NoMatchItems(warn, crit);
    ZeroHeads();
    ZeroPercentText("%idle", "%idle=0%;", 100 - warn, 100 - crit);
    ZeroPercentText("%user", "%user=0%;", warn, crit);
    ZeroPercentText("%system", "%system=0%;", warn, crit);
    ZeroPercentText("%iowait", "%iowait=0%;", warn, crit);
    SameFour(RenderMetric(Percent("%idle", 0, 100 - warn, 100 - crit)),
      RenderMetric(Percent("%user", 0, warn, crit)),
      RenderMetric(Percent("%system", 0, warn, crit)),
      RenderMetric(Percent("%iowait", 0, warn, crit)),
      "%idle=0%;" + ShowInt(100 - warn) + ";" + ShowInt(100 - crit) + ";0",
      "%user=0%;" + ShowInt(warn) + ";" + ShowInt(crit) + ";0",
      "%system=0%;" + ShowInt(warn) + ";" + ShowInt(crit) + ";0",
      "%iowait=0%;" + ShowInt(warn) + ";" + ShowInt(crit) + ";0");
  }

  /** The no-match perfdata splits into its four rendered metrics. */
  lemma NoMatchItems(warn: int, crit: int)
    ensures PerfLabels(NoMatch(warn, crit).perfdata.value) == ["%idle", "%user", "%system", "%iowait"]
    ensures Words(NoMatch(warn, crit).perfdata.value) ==
      [ RenderMetric(Percent("%idle", 0, 100 - warn, 100 - crit))
      , RenderMetric(Percent("%user", 0, warn, crit))
      , RenderMetric(Percent("%system", 0, warn, crit))
      , RenderMetric(Percent("%iowait", 0, warn, crit)) ]
  {
    CpuNamesArePlain();
    var names := CpuNames[..4];
    FirstFourNames();
    var ws, cs := [100 - warn, warn, warn, warn], [100 - crit, crit, crit, crit];
    PercentLabels(names, [0, 0, 0, 0], ws, cs);
    var ms := Percents(names, [0, 0, 0, 0], ws, cs);
    SameFour(RenderMetric(ms[0]), RenderMetric(ms[1]), RenderMetric(ms[2]), RenderMetric(ms[3]),
      RenderMetric(Percent("%idle", 0, 100 - warn, 100 - crit)), RenderMetric(Percent("%user", 0, warn, crit)),
      RenderMetric(Percent("%system", 0, warn, crit)), RenderMetric(Percent("%iowait", 0, warn, crit)));
  }

  lemma ZeroHeads()
    ensures "%idle=0%;" == "%idle" + "=0%;"
    ensures "%user=0%;" == "%user" + "=0%;"
    ensures "%system=0%;" == "%system" + "=0%;"
    ensures "%iowait=0%;" == "%iowait" + "=0%;"
  {
  }

  lemma FirstFourNames()
    ensures CpuNames[..4] == ["%idle", "%user", "%system", "%iowait"]
  {
  }

  lemma SameFour<T>(a: T, b: T, c: T, d: T, a': T, b': T, c': T, d': T)
    requires a == a' && b == b' && c == c' && d == d'
    ensures [a, b, c, d] == [a', b', c', d']
  {
  }

  /** A zero-valued item reads `name=0%;warn;crit;0`, its head `name=0%;`
      given as one string. */
  lemma ZeroPercentText(name: string, head: string, warn: int, crit: int)
    requires head == name + "=0%;"
    ensures RenderMetric(Percent(name, 0, warn, crit))
      == head + ShowInt(warn) + ";" + ShowInt(crit) + ";0"
  {
    var a, b := ShowInt(warn), ShowInt(crit);
    var fields := [a, b, "0"];
    assert fields[1..] == [b, "0"];
    FieldsSuffixTwo(b, "0");
    var tail := ";" + b + ";0";
    assert FieldsSuffix(fields) == ";" + a + tail;
    assert ShowInt(0) + "%" == "0%";
    calc {
      RenderMetric(Percent(name, 0, warn, crit));
      name + "=" + "0%" + (";" + a + tail);
      { assert name + "=" + "0%" == name + "=0%"; }
      name + "=0%" + (";" + a + tail);
      name + "=0%;" + a + tail;
    }
  }

  /** A percentage item reads `name=v%;warn;crit;0`. */
  lemma PercentText(name: string, v: int, warn: int, crit: int)
    ensures RenderMetric(Percent(name, v, warn, crit))
      == name + "=" + ShowInt(v) + "%;" + ShowInt(warn) + ";" + ShowInt(crit) + ";0"
  {
    var x, a, b := ShowInt(v), ShowInt(warn), ShowInt(crit);
    var fields := [a, b, "0"];
    assert fields[1..] == [b, "0"];
    FieldsSuffixTwo(b, "0");
    var tail := ";" + b + ";0";
    assert FieldsSuffix(fields) == ";" + a + tail;
    calc {
      RenderMetric(Percent(name, v, warn, crit));
      name + "=" + (x + "%") + (";" + a + tail);
      name + "=" + x + "%;" + a + tail;
    }
  }

  /** A matched row writes all six columns, %idle first, each a separate word. */
  lemma MatchedPerfdata(s: CpuSample, warn: int, crit: int)
    ensures PerfLabels(RenderMetrics(CpuMetrics(s, warn, crit))) == CpuNames
  {
    CpuNamesArePlain();
    PercentLabels(CpuNames, [s.idle, s.user, s.system, s.iowait, s.nice, s.steal],
      [100 - warn, warn, warn, warn, warn, warn], [100 - crit, crit, crit, crit, crit, crit]);
  }

  lemma CpuNamesArePlain()
    ensures forall i | 0 <= i < |CpuNames| :: PlainName(CpuNames[i])
  {
  }

  /** Percentage metrics with plain names carry exactly those names as labels. */
  lemma PercentLabels(names: seq<string>, values: seq<int>, warns: seq<int>, crits: seq<int>)
    requires |values| == |names| && |warns| == |names| && |crits| == |names|
    requires forall i | 0 <= i < |names| :: PlainName(names[i])
    ensures forall i | 0 <= i < |names| :: PlainMetric(Percents(names, values, warns, crits)[i])
    ensures PerfLabels(RenderMetrics(Percents(names, values, warns, crits))) == names
    ensures Words(RenderMetrics(Percents(names, values, warns, crits)))
      == seq(|names|, i requires 0 <= i < |names| => RenderMetric(Percents(names, values, warns, crits)[i]))
  {
    var ms := Percents(names, values, warns, crits);
    forall i | 0 <= i < |ms|
      ensures PlainMetric(ms[i]) && ms[i].name == names[i]
    {
      PercentIsPlain(names[i], values[i], warns[i], crits[i]);
    }
    LabelsOfNamed(ms, names);
    LabelsOfMetrics(ms);
  }

  lemma PercentIsPlain(name: string, v: int, warn: int, crit: int)
    requires PlainName(name)
    ensures PlainMetric(Percent(name, v, warn, crit))
  {
    ShowIntHasNoSpace(v);
    ShowIntHasNoSpace(warn);
    ShowIntHasNoSpace(crit);
    NoSpaceAppend(ShowInt(v), "%");
  }

  // ---------------------------------------------------------------------
  // A report read back
  // ---------------------------------------------------------------------

  /** A successful report whose second-to-last line ends in six rendered
      columns is classified from exactly those columns, with the mode off
      or unset reported as it was. */
  lemma CpuReportRoundTrip(before: seq<string>, prefix: string, ts: seq<Token>, gaps: seq<string>,
                           average: string, mode: Setting, live: string, warn: int, crit: int)
    requires !IsOn(mode)
    requires |ts| == 6 && |gaps| == 5 && ValidTokens(ts) && ValidGaps(gaps)
    requires EndsOutsideNumber(prefix) && '\n' !in prefix
    requires forall i | 0 <= i < |gaps| :: '\n' !in gaps[i]
    requires forall i | 0 <= i < |before| :: '\n' !in before[i]
    requires average != "" && '\n' !in average
    ensures var report := SarRun(JoinWith(before + [prefix + RenderRow(ts, gaps), average], '\n') + "\n", 0);
      && CheckSarCpu(warn, crit, mode, report, live) == CpuOutcome(Sample(ts), warn, crit, mode)
      && CheckSarCpuAsWritten(warn, crit, mode, report, live) == CpuOutcomeAsWritten(Sample(ts), warn, crit, mode)
  {
    ReportRoundTrip(before, prefix, ts, gaps, average, mode, live);
  }

  /** With no `interactive` key in the configuration the mode is `nil`, so a
      row from the report ends its text with an empty `interactive_mode:`. */
  lemma UnsetModePrintsNothing(s: CpuSample, warn: int, crit: int)
    ensures ModeField(None) == "% interactive_mode: "
    ensures EndsWith(CpuText(s, warn, crit, None), ModeField(None))
  {
    EndsWithMode(s, warn, crit, None);
  }

  /** A fallback to the live sample always reports the mode as `true`. */
  lemma FallbackReportsOn(warn: int, crit: int, interactive: Setting, report: SarRun, live: string)
    requires SelectRow(6, interactive, report, live).row.Some?
    requires IsOn(interactive) || report.status != 0 || (RowAt(report.output, 2, 6).None? && RowAt(report.output, 4, 6).None?)
    ensures ModeField(Some(true)) == "% interactive_mode: true"
    ensures EndsWith(CheckSarCpu(warn, crit, interactive, report, live).text, ModeField(Some(true)))
  {
    FallbackSetsOn(6, interactive, report, live);
    ModeShown(warn, crit, interactive, report, live, SelectRow(6, interactive, report, live));
    ModeFieldOn();
  }

  /** The text of a matched row ends with the mode the selection reports. */
  lemma ModeShown(warn: int, crit: int, interactive: Setting, report: SarRun, live: string, sel: Selection)
    requires SelectRow(6, interactive, report, live) == sel && sel.row.Some?
    ensures EndsWith(CheckSarCpu(warn, crit, interactive, report, live).text, ModeField(sel.interactive))
  {
    CheckOfSelection(warn, crit, interactive, report, live, sel);
    EndsWithMode(Sample(sel.row.value), warn, crit, sel.interactive);
  }

  /** The probe's text is the text for the selected row and mode. */
  lemma CheckOfSelection(warn: int, crit: int, interactive: Setting, report: SarRun, live: string, sel: Selection)
    requires SelectRow(6, interactive, report, live) == sel && sel.row.Some?
    ensures CheckSarCpu(warn, crit, interactive, report, live).text == CpuText(Sample(sel.row.value), warn, crit, sel.interactive)
  {
  }

  lemma ModeFieldOn()
    ensures ModeField(Some(true)) == "% interactive_mode: true"
  {
  }

  lemma EndsWithMode(s: CpuSample, warn: int, crit: int, m: Setting)
    ensures EndsWith(CpuText(s, warn, crit, m), ModeField(m))
  {
    EndsWithPrepend(Readings(s), ModeField(m), ModeField(m));
    EndsWithPrepend(Verdicts(s, warn, crit), Details(s, m), ModeField(m));
  }

  lemma EndsWithPrepend(x: string, y: string, e: string)
    requires EndsWith(y, e) || y == e
    ensures EndsWith(x + y, e)
  {
    assert (x + y)[|x + y| - |e|..] == y[|y| - |e|..];
  }

  // ---------------------------------------------------------------------
  // Decimal commas
  // ---------------------------------------------------------------------

  /** sar writes a decimal comma in some locales; `to_f` stops at it, so
      `83,7` counts as 83 where `83.7` would round to 84. */
  lemma DecimalCommaTruncates(whole: string, frac: string)
    requires whole != [] && AllDigits(whole) && frac != [] && AllDigits(frac)
    ensures Rounded(Token(whole, ',', frac)) == DigitsValue(whole)
    ensures Rounded(Token(whole, '.', frac)) == DigitsValue(whole) + (if DigitValue(frac[0]) >= 5 then 1 else 0)
  {
    RoundedToken(Token(whole, ',', frac));
    RoundedToken(Token(whole, '.', frac));
  }
}
