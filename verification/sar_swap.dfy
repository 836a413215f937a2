/** check_sar_swap: classifies the swap row of `sar -W` by pages swapped
    out per second; pages swapped in are reported but never change the
    code. */
module SarSwap {
  import opened Wrappers
  import opened Lines
  import opened Numbers
  import opened Probe
  import opened Scan
  import opened SarRow

  /** A column as the text shows it: `to_s` of its `to_f`, so `12,50`
      prints as `12.0` and `0.50` as `0.5`. */
  function ColumnText(t: Token): string
    requires ValidToken(t)
  {
    ShowDecimal(DigitsValue(t.whole), if t.sep == '.' then t.frac else "")
  }

  /** The increasing ladder on pswpout/s; the integer thresholds compare
      with the float reading. */
  function SwapCode(pswpout: real, warn: int, crit: int): int {
    Ladder(pswpout, warn as real, crit as real)
  }

  function SwapText(code: int, pswpout: string, pswpin: string, interactive: Setting): string {
    LadderWord(code) + SwapDetails(pswpout, pswpin, interactive)
  }

  /** The readings after the word. */
  function SwapDetails(pswpout: string, pswpin: string, interactive: Setting): string {
    " - pswpout/s: " + pswpout + " pswpin/s: " + pswpin + ModeField(interactive)
  }

  /** The last field of the text, with the mode as interpolation writes it. */
  function ModeField(interactive: Setting): string {
    " interactive_mode " + ShowSetting(interactive)
  }

  /** pswpout with the thresholds and minimum 0, pswpin with the minimum only. */
  function SwapMetrics(pswpout: string, pswpin: string, warn: int, crit: int): seq<Metric> {
    [Metric("pswpout", pswpout, [ShowInt(warn), ShowInt(crit), "0"]), Metric("pswpin", pswpin, ["", "", "0"])]
  }

  /** The result for a matched row: the captures are pswpout/s, then pswpin/s. */
  function SwapOutcome(ts: seq<Token>, warn: int, crit: int, interactive: Setting): Outcome
    requires |ts| == 2 && ValidTokens(ts)
  {
    var code := SwapCode(TokenValue(ts[0]), warn, crit);
    var pswpout, pswpin := ColumnText(ts[0]), ColumnText(ts[1]);
    Outcome(code, SwapText(code, pswpout, pswpin, interactive), Some(RenderMetrics(SwapMetrics(pswpout, pswpin, warn, crit))))
  }

  const NoMatchText: string := "WARNING: check_sar_swap() regex did not match!"

  /** The no-match perfdata as written: the second item repeats the pswpout label. */
  function NoMatchMetricsAsWritten(warn: int, crit: int): seq<Metric> {
    [Metric("pswpout", "0", [ShowInt(warn), ShowInt(crit), "0"]), Metric("pswpout", "0", ["", "", "0"])]
  }

  /** The no-match perfdata with the second item labelled pswpin, as in a matched row. */
  function NoMatchMetrics(warn: int, crit: int): seq<Metric> {
    SwapMetrics("0", "0", warn, crit)
  }

  function NoMatchAsWritten(warn: int, crit: int): Outcome {
    Outcome(WARNING, NoMatchText, Some(RenderMetrics(NoMatchMetricsAsWritten(warn, crit))))
  }

  function NoMatch(warn: int, crit: int): Outcome {
    Outcome(WARNING, NoMatchText, Some(RenderMetrics(NoMatchMetrics(warn, crit))))
  }

  /** check_sar_swap as written; `report` is the plain `sar -W` run and
      `live` the output of the 25-second live sample. */
  function CheckSarSwapAsWritten(warn: int, crit: int, interactive: Setting, report: SarRun, live: string): (r: Outcome)
    ensures OK <= r.code <= CRITICAL
    ensures r.perfdata.Some?
  {
    var sel := SelectRow(2, interactive, report, live);
    match sel.row
    case None => NoMatchAsWritten(warn, crit)
    case Some(ts) => SwapOutcome(ts, warn, crit, sel.interactive)
  }

  /** check_sar_swap with the no-match perfdata labelled as in a matched row. */
  function CheckSarSwap(warn: int, crit: int, interactive: Setting, report: SarRun, live: string): (r: Outcome)
    ensures var w := CheckSarSwapAsWritten(warn, crit, interactive, report, live);
      r.code == w.code && r.text == w.text
    ensures SelectRow(2, interactive, report, live).row.Some? ==> r == CheckSarSwapAsWritten(warn, crit, interactive, report, live)
  {
    var sel := SelectRow(2, interactive, report, live);
    match sel.row
    case None => NoMatch(warn, crit)
    case Some(ts) => SwapOutcome(ts, warn, crit, sel.interactive)
  }

  // ---------------------------------------------------------------------
  // Properties
  // ---------------------------------------------------------------------

  /** The printed reading denotes the column's value: `to_f` of the text
      gives back the number the code was decided on. */
  lemma ColumnTextReadsBack(t: Token)
    requires ValidToken(t)
    ensures ToF(ColumnText(t)) == TokenValue(t)
  {
    assert TokenValue(t) == ToF(t.whole + [t.sep] + t.frac);
    ToFDecimal(t.whole, t.sep, t.frac);
    if t.sep == '.' {
      ToFShowDecimal(DigitsValue(t.whole), t.frac);
    } else {
      ToFShowDecimal(DigitsValue(t.whole), "");
      assert Fraction("") == 0.0;
    }
  }

  /** The code is CRITICAL from `crit` pages out per second, WARNING from
      `warn`, and OK below both. */
  lemma SwapBands(ts: seq<Token>, warn: int, crit: int, interactive: Setting)
    requires |ts| == 2 && ValidTokens(ts)
    ensures var c := SwapOutcome(ts, warn, crit, interactive).code;
      var v := TokenValue(ts[0]);
      && (c == CRITICAL <==> v >= crit as real)
      && (c == WARNING <==> warn as real <= v < crit as real)
      && (c == OK <==> v < warn as real && v < crit as real)
  {
    LadderBands(TokenValue(ts[0]), warn as real, crit as real);
  }

  /** The text opens with the word of the code. */
  lemma SwapTextWord(code: int, pswpout: string, pswpin: string, interactive: Setting)
    ensures var w, t := LadderWord(code), SwapText(code, pswpout, pswpin, interactive);
      |w| <= |t| && t[..|w|] == w
  {
    var w := LadderWord(code);
    assert (w + SwapDetails(pswpout, pswpin, interactive))[..|w|] == w;
  }

  /** More pages out never gives a better code. */
  lemma SwapMonotone(a: seq<Token>, b: seq<Token>, warn: int, crit: int, interactive: Setting)
    requires |a| == 2 && ValidTokens(a) && |b| == 2 && ValidTokens(b)
    requires TokenValue(a[0]) <= TokenValue(b[0])
    ensures SwapOutcome(a, warn, crit, interactive).code <= SwapOutcome(b, warn, crit, interactive).code
  {
    LadderMonotone(TokenValue(a[0]), TokenValue(b[0]), warn as real, crit as real);
  }

  /** The pswpin column never changes the code. */
  lemma PswpinIgnored(a: seq<Token>, b: seq<Token>, warn: int, crit: int, interactive: Setting)
    requires |a| == 2 && ValidTokens(a) && |b| == 2 && ValidTokens(b)
    requires a[0] == b[0]
    ensures SwapOutcome(a, warn, crit, interactive).code == SwapOutcome(b, warn, crit, interactive).code
  {
  }

  lemma ColumnTextPlain(t: Token)
    requires ValidToken(t)
    ensures NoSpace(ColumnText(t))
  {
    ShowDecimalShape(DigitsValue(t.whole), if t.sep == '.' then t.frac else "");
  }

  lemma SwapMetricsPlain(pswpout: string, pswpin: string, warn: int, crit: int)
    requires NoSpace(pswpout) && NoSpace(pswpin)
    ensures var ms := SwapMetrics(pswpout, pswpin, warn, crit);
      forall i | 0 <= i < |ms| :: PlainMetric(ms[i])
  {
    SwapNamesPlain();
    ShowIntHasNoSpace(warn);
    ShowIntHasNoSpace(crit);
  }

  lemma SwapNamesPlain()
    ensures PlainName("pswpout") && PlainName("pswpin")
  {
  }

  /** A matched row writes a pswpout and a pswpin item. */
  lemma MatchedSwapLabels(ts: seq<Token>, warn: int, crit: int, interactive: Setting)
    requires |ts| == 2 && ValidTokens(ts)
    ensures SwapOutcome(ts, warn, crit, interactive).perfdata.Some?
    ensures PerfLabels(SwapOutcome(ts, warn, crit, interactive).perfdata.value) == ["pswpout", "pswpin"]
  {
    var pswpout, pswpin := ColumnText(ts[0]), ColumnText(ts[1]);
    ColumnTextPlain(ts[0]);
    ColumnTextPlain(ts[1]);
    SwapMetricsPlain(pswpout, pswpin, warn, crit);
    LabelsOfNamed(SwapMetrics(pswpout, pswpin, warn, crit), ["pswpout", "pswpin"]);
  }

  /** As written, the no-match perfdata carries the pswpout label twice and
      no pswpin item. */
  lemma NoMatchLabelsAsWritten(warn: int, crit: int)
    ensures PerfLabels(NoMatchAsWritten(warn, crit).perfdata.value) == ["pswpout", "pswpout"]
  {
    SwapNamesPlain();
    ShowIntHasNoSpace(warn);
    ShowIntHasNoSpace(crit);
    LabelsOfNamed(NoMatchMetricsAsWritten(warn, crit), ["pswpout", "pswpout"]);
  }

  /** With the second label corrected, a missed row reports the same labels
      as a matched one. */
  lemma NoMatchLabels(warn: int, crit: int)
    ensures PerfLabels(NoMatch(warn, crit).perfdata.value) == ["pswpout", "pswpin"]
  {
    SwapMetricsPlain("0", "0", warn, crit);
    LabelsOfNamed(NoMatchMetrics(warn, crit), ["pswpout", "pswpin"]);
  }

  /** When no candidate line matches, both versions warn with the same
      text and differ only in the perfdata. */
  lemma NoMatchOutcome(warn: int, crit: int, interactive: Setting, report: SarRun, live: string)
    requires SelectRow(2, interactive, report, live).row.None?
    ensures var r := CheckSarSwapAsWritten(warn, crit, interactive, report, live);
      && r.code == WARNING && r.text == NoMatchText
      && CheckSarSwap(warn, crit, interactive, report, live) == r.(perfdata := NoMatch(warn, crit).perfdata)
  {
  }

  /** A successful report whose second-to-last line ends in two rendered
      columns is classified from exactly those columns, with the mode off
      or unset reported as it was. */
  lemma SwapReportRoundTrip(before: seq<string>, prefix: string, ts: seq<Token>, gap: string,
                            average: string, mode: Setting, live: string, warn: int, crit: int)
    requires !IsOn(mode)
    requires |ts| == 2 && ValidTokens(ts) && ValidGaps([gap]) && '\n' !in gap
    requires EndsOutsideNumber(prefix) && '\n' !in prefix
    requires forall i | 0 <= i < |before| :: '\n' !in before[i]
    requires average != "" && '\n' !in average
    ensures var report := SarRun(JoinWith(before + [prefix + RenderRow(ts, [gap]), average], '\n') + "\n", 0);
      && CheckSarSwap(warn, crit, mode, report, live) == SwapOutcome(ts, warn, crit, mode)
      && CheckSarSwapAsWritten(warn, crit, mode, report, live) == SwapOutcome(ts, warn, crit, mode)
  {
    ReportRoundTrip(before, prefix, ts, [gap], average, mode, live);
  }

  /** With no `interactive` key in the configuration the mode is `nil`, so
      the text ends in `interactive_mode ` with nothing after it. */
  lemma UnsetModePrintsNothing(code: int, pswpout: string, pswpin: string)
    ensures ModeField(None) == " interactive_mode "
    ensures EndsWith(SwapText(code, pswpout, pswpin, None), ModeField(None))
  {
    var a, e := LadderWord(code) + " - pswpout/s: " + pswpout + " pswpin/s: " + pswpin, ModeField(None);
    assert SwapText(code, pswpout, pswpin, None) == a + e;
    assert (a + e)[|a|..] == e;
  }
}
